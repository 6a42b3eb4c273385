/**
 * The A records of a sniffed DNS response (section 4.1 of RFC 1035): which address belongs to which
 * owner name, and for how long.
 */
module DnsResponse {
  import opened Bytes
  import opened Collections
  import opened DnsName

  const MIN_RR_SIZE := 4

  type IPv4 = s: bytes | |s| == 4 witness [0, 0, 0, 0]

  datatype Answer = Answer(name: bytes, ttl: nat)
  datatype Record = Record(name: bytes, typ: nat, ttl: nat, rdata: bytes)

  predicate IsAddress(r: Record)
  {
    r.typ == 1 && |r.rdata| == 4
  }

  // ---------- What lies in the packet ----------

  /** The offset after `n` questions; None when one of them does not fit. */
  function AfterQuestions(p: bytes, pos: nat, n: nat): (r: Option<nat>)
    decreases n
  {
    if n == 0 then Some(pos) else
    match ReadName(p, pos, {}, 0)
    case Failed => None
    case Read(_, next) => if next + 4 > |p| then None else AfterQuestions(p, next + 4, n - 1)
  }

  /** The resource record at `pos` and the offset after it. */
  function RecordAt(p: bytes, pos: nat): (r: Option<(Record, nat)>)
    ensures r.Some? ==> pos + 11 <= r.value.1 <= |p|
  {
    match ReadName(p, pos, {}, 0)
    case Failed => None
    case Read(name, next) =>
      if next + 10 > |p| || next + 10 + U16(p, next + 8) > |p| then None
      else
        var end := next + 10 + U16(p, next + 8);
        Some((Record(name, U16(p, next), U32(p, next + 4), p[next + 10..end]), end))
  }

  /** Up to `n` records from `pos`, stopping at the first that does not fit. */
  function RecordsFrom(p: bytes, pos: nat, n: nat): (rs: seq<Record>)
    ensures |rs| <= n
    decreases n
  {
    if n == 0 || RecordAt(p, pos).None? then []
    else [RecordAt(p, pos).value.0] + RecordsFrom(p, RecordAt(p, pos).value.1, n - 1)
  }

  /** The records reached when the counts of the header are taken at their word. */
  function RecordsCounted(p: bytes): (rs: seq<Record>)
  {
    if |p| < 12 || p[2] < 0x80 then [] else
    match AfterQuestions(p, 12, U16(p, 4))
    case None => []
    case Some(pos) => RecordsFrom(p, pos, U16(p, 6))
  }

  /** The size guard: no packet can hold more records than a quarter of its bytes. */
  predicate CountsPlausible(p: bytes)
    requires |p| >= 12
  {
    U16(p, 4) <= |p| / MIN_RR_SIZE && U16(p, 6) <= |p| / MIN_RR_SIZE
  }

  function RecordsReached(p: bytes): (rs: seq<Record>)
  {
    if |p| < 12 || !CountsPlausible(p) then [] else RecordsCounted(p)
  }

  /** An address record replaces what is known about its address only if its owner name is shorter. */
  function Merge(m: map<IPv4, Answer>, r: Record): (m': map<IPv4, Answer>)
  {
    if IsAddress(r) && (r.rdata !in m || |r.name| < |m[r.rdata].name|)
    then m[r.rdata := Answer(r.name, r.ttl)]
    else m
  }

  function Collect(rs: seq<Record>): (m: map<IPv4, Answer>)
  {
    if rs == [] then map[] else Merge(Collect(rs[..|rs| - 1]), rs[|rs| - 1])
  }

  // ---------- The parser as the source runs it ----------

  /** The question loop. */
  method SkipQuestions(packet: bytes, qdcount: nat) returns (pos: nat, ok: bool)
    ensures AfterQuestions(packet, 12, qdcount) == if ok then Some(pos) else None
  {
    hide ReadName;
    pos := 12;
    for i := 0 to qdcount
      invariant AfterQuestions(packet, 12, qdcount) == AfterQuestions(packet, pos, qdcount - i)
    {
      var _, next, found := ReadDNSNameSafe(packet, pos, {}, 0);
      if !found {
        return pos, false;
      }
      pos := next + 4;
      if pos > |packet| {
        return pos, false;
      }
    }
    return pos, true;
  }

  /** One turn of the answer loop up to the type test. */
  method ReadRecord(packet: bytes, start: nat) returns (r: Record, end: nat, ok: bool)
    ensures RecordAt(packet, start) == if ok then Some((r, end)) else None
  {
    hide ReadName, U16, U32;
    r, end, ok := Record([], 0, 0, []), 0, false;
    var name, pos, found := ReadDNSNameSafe(packet, start, {}, 0);
    if !found || pos + 10 > |packet| {
      return;
    }
    var typ := U16(packet, pos);
    var ttl := U32(packet, pos + 4);
    var rdlength := U16(packet, pos + 8);
    pos := pos + 10;
    if pos + rdlength > |packet| {
      return;
    }
    return Record(name, typ, ttl, packet[pos..pos + rdlength]), pos + rdlength, true;
  }

  /** The answer loop: an address keeps its first shortest owner. */
  method CollectAnswers(packet: bytes, start: nat, ancount: nat) returns (out: map<IPv4, Answer>)
    ensures out == Collect(RecordsFrom(packet, start, ancount))
  {
    hide RecordAt, Collect, CollectOnto, RecordsFrom;
    out := map[];
    var pos: nat := start;
    CollectOntoNothing(RecordsFrom(packet, start, ancount));
    for i := 0 to ancount
      invariant CollectOnto(out, RecordsFrom(packet, pos, ancount - i)) == Collect(RecordsFrom(packet, start, ancount))
    {
      CollectOntoStep(out, packet, pos, ancount - i);
      var r, end, ok := ReadRecord(packet, pos);
      if !ok {
        return;
      }
      ghost var before := out;
      if r.typ == 1 && |r.rdata| == 4 {
        var ip: IPv4 := r.rdata;
        if ip !in out || |r.name| < |out[ip].name| {
          out := out[ip := Answer(r.name, r.ttl)];
        }
      }
      assert out == Merge(before, r);
      pos := end;
    }
    CollectOntoStep(out, packet, pos, 0);
  }

  method ParseDNSResponseIPv4(packet: bytes) returns (out: map<IPv4, Answer>)
    ensures out == Collect(RecordsReached(packet))
  {
    hide AfterQuestions, RecordsFrom, U16;
    out := map[];
    if |packet| < 12 || packet[2] < 0x80 {
      return;
    }
    var qdcount := U16(packet, 4);
    var ancount := U16(packet, 6);
    if ancount == 0 {
      return;
    }
    var maxRR := |packet| / MIN_RR_SIZE;
    if qdcount > maxRR || ancount > maxRR {
      return;
    }
    var pos, ok := SkipQuestions(packet, qdcount);
    if !ok {
      return;
    }
    out := CollectAnswers(packet, pos, ancount);
  }

  ghost function CollectOnto(m: map<IPv4, Answer>, rs: seq<Record>): (r: map<IPv4, Answer>)
    decreases |rs|
  {
    if rs == [] then m else CollectOnto(Merge(m, rs[0]), rs[1..])
  }

  lemma {:induction false} CollectOntoIsCollect(a: seq<Record>, b: seq<Record>)
    ensures CollectOnto(Collect(a), b) == Collect(a + b)
    decreases |b|
  {
    if b == [] {
      assert a + b == a;
    } else {
      assert (a + [b[0]])[..|a|] == a;
      CollectOntoIsCollect(a + [b[0]], b[1..]);
      assert a + b == (a + [b[0]]) + b[1..];
    }
  }

  lemma CollectOntoNothing(rs: seq<Record>)
    ensures CollectOnto(map[], rs) == Collect(rs)
  {
    CollectOntoIsCollect([], rs);
    assert [] + rs == rs;
  }

  lemma CollectOntoStep(m: map<IPv4, Answer>, p: bytes, pos: nat, n: nat)
    ensures n == 0 || RecordAt(p, pos).None? ==> CollectOnto(m, RecordsFrom(p, pos, n)) == m
    ensures n > 0 && RecordAt(p, pos).Some? ==>
            var (r, end) := RecordAt(p, pos).value;
            CollectOnto(m, RecordsFrom(p, pos, n)) == CollectOnto(Merge(m, r), RecordsFrom(p, end, n - 1))
  {
    hide RecordAt, Merge;
    if n > 0 && RecordAt(p, pos).Some? {
      assert RecordsFrom(p, pos, n)[1..] == RecordsFrom(p, RecordAt(p, pos).value.1, n - 1);
    }
  }

  // ---------- Which record wins ----------

  /** Record `i` is the first of those for `ip` whose owner name is shortest. */
  ghost predicate FirstShortest(rs: seq<Record>, ip: IPv4, i: nat)
  {
    && i < |rs| && rs[i].typ == 1 && rs[i].rdata == ip
    && forall j :: 0 <= j < |rs| && rs[j].typ == 1 && rs[j].rdata == ip ==>
         |rs[i].name| <= |rs[j].name| && (j < i ==> |rs[i].name| < |rs[j].name|)
  }

  ghost predicate Mentions(rs: seq<Record>, ip: IPv4)
  {
    exists j :: 0 <= j < |rs| && rs[j].typ == 1 && rs[j].rdata == ip
  }

  lemma {:induction false} CollectPicksFirstShortest(rs: seq<Record>, ip: IPv4)
    ensures ip in Collect(rs) <==> Mentions(rs, ip)
    ensures ip in Collect(rs) ==>
            exists i: nat :: FirstShortest(rs, ip, i) && Collect(rs)[ip] == Answer(rs[i].name, rs[i].ttl)
  {
    if rs != [] {
      var n := |rs| - 1;
      var front := rs[..n];
      CollectPicksFirstShortest(front, ip);
      if IsAddress(rs[n]) && rs[n].rdata == ip {
        assert Mentions(rs, ip);
        if ip in Collect(front) && |Collect(front)[ip].name| <= |rs[n].name| {
          var i: nat :| FirstShortest(front, ip, i) && Collect(front)[ip] == Answer(front[i].name, front[i].ttl);
          assert FirstShortest(rs, ip, i);
        } else {
          forall j | 0 <= j < n && IsAddress(rs[j]) && rs[j].rdata == ip ensures |rs[n].name| < |rs[j].name| {
            assert front[j] == rs[j];
          }
          assert FirstShortest(rs, ip, n);
        }
      } else if ip in Collect(front) {
        var i: nat :| FirstShortest(front, ip, i) && Collect(front)[ip] == Answer(front[i].name, front[i].ttl);
        assert FirstShortest(rs, ip, i);
      }
    }
  }

  // ---------- The size guard ----------

  lemma {:induction false} QuestionsTakeFiveBytes(p: bytes, pos: nat, n: nat)
    requires AfterQuestions(p, pos, n).Some? && pos <= |p|
    ensures pos + 5 * n <= AfterQuestions(p, pos, n).value <= |p|
    decreases n
  {
    hide ReadName;
    if n > 0 {
      QuestionsTakeFiveBytes(p, ReadName(p, pos, {}, 0).next + 4, n - 1);
    }
  }

  lemma {:induction false} RecordsTakeElevenBytes(p: bytes, pos: nat, n: nat)
    requires pos <= |p|
    ensures pos + 11 * |RecordsFrom(p, pos, n)| <= |p|
    decreases n
  {
    hide RecordAt;
    if n > 0 && RecordAt(p, pos).Some? {
      RecordsTakeElevenBytes(p, RecordAt(p, pos).value.1, n - 1);
    }
  }

  /** The guard never costs a packet whose counted questions and answers all parse. */
  lemma GuardNeverRejectsWholePackets(p: bytes)
    requires |p| >= 12 && AfterQuestions(p, 12, U16(p, 4)).Some?
    requires |RecordsFrom(p, AfterQuestions(p, 12, U16(p, 4)).value, U16(p, 6))| == U16(p, 6)
    ensures CountsPlausible(p) && RecordsReached(p) == RecordsCounted(p)
  {
    QuestionsTakeFiveBytes(p, 12, U16(p, 4));
    RecordsTakeElevenBytes(p, AfterQuestions(p, 12, U16(p, 4)).value, U16(p, 6));
  }

  // ---------- The record on the wire ----------

  ghost function EncodeRecord(typ: nat, class_: nat, ttl: nat, rdata: bytes): (b: bytes)
    requires typ < 0x1_0000 && class_ < 0x1_0000 && ttl < 0x1_0000_0000 && |rdata| < 0x1_0000
    ensures |b| == 10 + |rdata|
  {
    PutU16(typ) + (PutU16(class_) + (PutU32(ttl) + Vec16(rdata)))
  }

  /** A name within budget, then type, class, time to live and the data with its length. */
  ghost predicate RecordLies(p: bytes, pos: nat, r: Record, end: nat, c: Chain, class_: nat, next: nat)
  {
    && r.typ < 0x1_0000 && class_ < 0x1_0000 && r.ttl < 0x1_0000_0000 && |r.rdata| < 0x1_0000
    && Reads(p, pos, r.name, next, c)
    && At(p, next, EncodeRecord(r.typ, class_, r.ttl, r.rdata)) && end == next + 10 + |r.rdata|
  }

  lemma EncodeRecordAt(p: bytes, i: nat, typ: nat, class_: nat, ttl: nat, rdata: bytes)
    requires typ < 0x1_0000 && class_ < 0x1_0000 && ttl < 0x1_0000_0000 && |rdata| < 0x1_0000
    ensures At(p, i, EncodeRecord(typ, class_, ttl, rdata)) <==>
            && i + 10 + |rdata| <= |p| && U16(p, i) == typ && U16(p, i + 2) == class_ && U32(p, i + 4) == ttl
            && U16(p, i + 8) == |rdata| && p[i + 10..i + 10 + |rdata|] == rdata
  {
    var r1 := PutU32(ttl) + Vec16(rdata);
    var r2 := PutU16(class_) + r1;
    AtConcat(p, i, PutU16(typ), r2);
    AtU16(p, i, typ);
    AtConcat(p, i + 2, PutU16(class_), r1);
    AtU16(p, i + 2, class_);
    AtConcat(p, i + 4, PutU32(ttl), Vec16(rdata));
    AtU32(p, i + 4, ttl);
    AtVec16(p, i + 8, rdata);
  }

  /** A record is read exactly when its encoding lies there, and the reading continues right after it. */
  lemma RecordAtCharacterised(p: bytes, pos: nat, r: Record, end: nat)
    ensures RecordAt(p, pos) == Some((r, end)) <==>
            exists c, class_, next :: RecordLies(p, pos, r, end, c, class_, next)
  {
    hide ReadName, Reads, EncodeRecord, At, U16, U32;
    if RecordAt(p, pos) == Some((r, end)) {
      var next := ReadName(p, pos, {}, 0).next;
      ReadNameCharacterised(p, pos, r.name, next);
      var c :| Reads(p, pos, r.name, next, c);
      EncodeRecordAt(p, next, r.typ, U16(p, next + 2), r.ttl, r.rdata);
      assert RecordLies(p, pos, r, end, c, U16(p, next + 2), next);
    }
    if c, class_, next :| RecordLies(p, pos, r, end, c, class_, next) {
      ReadNameCharacterised(p, pos, r.name, next);
      EncodeRecordAt(p, next, r.typ, class_, r.ttl, r.rdata);
    }
  }

  // ---------- A whole response ----------

  /** A question as it lies in a packet: its name, which chain makes it up and where it ends. */
  datatype Asked = Asked(name: bytes, owner: Chain, next: nat)

  /** A record as it lies in a packet. */
  datatype Placed = Placed(record: Record, owner: Chain, class_: nat, next: nat, end: nat)

  /** Questions lie one after another from `pos` to `end`, their names compressed or not. */
  ghost predicate QuestionsLie(p: bytes, pos: nat, qs: seq<Asked>, end: nat)
    decreases |qs|
  {
    if qs == [] then pos == end
    else
      && Reads(p, pos, qs[0].name, qs[0].next, qs[0].owner) && qs[0].next + 4 <= |p|
      && QuestionsLie(p, qs[0].next + 4, qs[1..], end)
  }

  /** Records lie one after another from `pos` on. */
  ghost predicate RecordsLie(p: bytes, pos: nat, rs: seq<Placed>)
    decreases |rs|
  {
    rs == []
    || (&& RecordLies(p, pos, rs[0].record, rs[0].end, rs[0].owner, rs[0].class_, rs[0].next)
        && RecordsLie(p, rs[0].end, rs[1..]))
  }

  /** Where the last of the records ends. */
  ghost function EndOf(pos: nat, rs: seq<Placed>): (end: nat)
  {
    if rs == [] then pos else rs[|rs| - 1].end
  }

  ghost predicate RecordStarts(p: bytes, pos: nat)
  {
    exists r, end, c, class_, next :: RecordLies(p, pos, r, end, c, class_, next)
  }

  lemma RecordStartsIs(p: bytes, pos: nat)
    ensures RecordStarts(p, pos) <==> RecordAt(p, pos).Some?
  {
    hide RecordLies, RecordAt;
    if RecordAt(p, pos).Some? {
      var (r, end) := RecordAt(p, pos).value;
      RecordAtCharacterised(p, pos, r, end);
    }
    if r, end, c, class_, next :| RecordLies(p, pos, r, end, c, class_, next) {
      RecordAtCharacterised(p, pos, r, end);
    }
  }

  ghost function RecordsIn(rs: seq<Placed>): (r: seq<Record>)
    ensures |r| == |rs|
  {
    if rs == [] then [] else [rs[0].record] + RecordsIn(rs[1..])
  }

  lemma {:induction false} QuestionsLieSkipped(p: bytes, pos: nat, qs: seq<Asked>, end: nat)
    requires QuestionsLie(p, pos, qs, end)
    ensures AfterQuestions(p, pos, |qs|) == Some(end)
    decreases |qs|
  {
    hide Reads, ReadName;
    if qs != [] {
      ReadNameCharacterised(p, pos, qs[0].name, qs[0].next);
      QuestionsLieSkipped(p, qs[0].next + 4, qs[1..], end);
    }
  }

  lemma {:induction false} QuestionsSkippedLie(p: bytes, pos: nat, n: nat) returns (qs: seq<Asked>)
    requires AfterQuestions(p, pos, n).Some?
    ensures |qs| == n && QuestionsLie(p, pos, qs, AfterQuestions(p, pos, n).value)
    decreases n
  {
    hide Reads, ReadName;
    qs := [];
    if n > 0 {
      var r := ReadName(p, pos, {}, 0);
      ReadNameCharacterised(p, pos, r.name, r.next);
      var c :| Reads(p, pos, r.name, r.next, c);
      var rest := QuestionsSkippedLie(p, r.next + 4, n - 1);
      qs := [Asked(r.name, c, r.next)] + rest;
      assert qs[1..] == rest;
    }
  }

  lemma {:induction false} RecordsLieRead(p: bytes, pos: nat, rs: seq<Placed>, n: nat)
    requires RecordsLie(p, pos, rs) && |rs| <= n && (|rs| == n || !RecordStarts(p, EndOf(pos, rs)))
    ensures RecordsFrom(p, pos, n) == RecordsIn(rs)
    decreases |rs|
  {
    hide RecordLies, RecordAt, RecordStarts;
    if rs == [] {
      RecordStartsIs(p, pos);
    } else {
      RecordAtCharacterised(p, pos, rs[0].record, rs[0].end);
      RecordsLieRead(p, rs[0].end, rs[1..], n - 1);
    }
  }

  lemma {:induction false} RecordsReadLie(p: bytes, pos: nat, n: nat) returns (rs: seq<Placed>)
    ensures RecordsLie(p, pos, rs) && RecordsIn(rs) == RecordsFrom(p, pos, n)
    ensures |rs| == n || !RecordStarts(p, EndOf(pos, rs))
    decreases n
  {
    hide RecordLies, RecordAt, RecordStarts;
    rs := [];
    RecordStartsIs(p, pos);
    if n > 0 && RecordAt(p, pos).Some? {
      var (r, end) := RecordAt(p, pos).value;
      RecordAtCharacterised(p, pos, r, end);
      var c, class_, next :| RecordLies(p, pos, r, end, c, class_, next);
      var rest := RecordsReadLie(p, end, n - 1);
      rs := [Placed(r, c, class_, next, end)] + rest;
      assert rs[1..] == rest;
    }
  }

  /**
   * A response whose questions and answers lie in it, one after another and with names compressed in any
   * way the reader has the budget for, is read back: exactly the answers, in order.
   */
  lemma ResponseIsRead(p: bytes, qs: seq<Asked>, mid: nat, rs: seq<Placed>)
    requires |p| >= 12 && p[2] >= 0x80 && U16(p, 4) == |qs| && U16(p, 6) == |rs|
    requires QuestionsLie(p, 12, qs, mid) && RecordsLie(p, mid, rs)
    ensures RecordsReached(p) == RecordsIn(rs)
  {
    hide U16, QuestionsLie, RecordsLie, RecordsFrom, AfterQuestions;
    QuestionsLieSkipped(p, 12, qs, mid);
    RecordsLieRead(p, mid, rs, |rs|);
    GuardNeverRejectsWholePackets(p);
  }

  /** The counted questions lie at the front, and then the records, up to the count or to where none starts. */
  ghost predicate LaidOut(p: bytes, qs: seq<Asked>, mid: nat, rs: seq<Placed>)
    requires |p| >= 12
  {
    && |qs| == U16(p, 4) && QuestionsLie(p, 12, qs, mid) && RecordsLie(p, mid, rs) && |rs| <= U16(p, 6)
    && (|rs| == U16(p, 6) || !RecordStarts(p, EndOf(mid, rs)))
  }

  /** Conversely, what is read from a packet lies in it like that, and reading stops only where it must. */
  lemma ReachedRecordsLie(p: bytes)
    requires RecordsReached(p) != []
    ensures |p| >= 12 && p[2] >= 0x80
    ensures exists qs, mid, rs :: LaidOut(p, qs, mid, rs) && RecordsIn(rs) == RecordsReached(p)
  {
    hide U16, QuestionsLie, RecordsLie, RecordsFrom, AfterQuestions, RecordStarts;
    var n := U16(p, 4);
    var mid := AfterQuestions(p, 12, n).value;
    var qs := QuestionsSkippedLie(p, 12, n);
    var rs := RecordsReadLie(p, mid, U16(p, 6));
    assert LaidOut(p, qs, mid, rs) && RecordsIn(rs) == RecordsReached(p);
  }

  /**
   * A response that breaks off is read up to there, unless its counts claim more than one question or one
   * answer for every four bytes.
   */
  lemma BrokenResponseIsRead(p: bytes, qs: seq<Asked>, mid: nat, rs: seq<Placed>)
    requires |p| >= 12 && p[2] >= 0x80 && LaidOut(p, qs, mid, rs)
    ensures RecordsReached(p) == if 4 * U16(p, 4) <= |p| && 4 * U16(p, 6) <= |p| then RecordsIn(rs) else []
  {
    hide U16, QuestionsLie, RecordsLie, RecordsFrom, AfterQuestions, RecordStarts;
    QuestionsLieSkipped(p, 12, qs, mid);
    RecordsLieRead(p, mid, rs, U16(p, 6));
  }

  datatype Question = Question(labels: seq<bytes>, typeAndClass: bytes)
  datatype Resource = Resource(labels: seq<bytes>, typ: nat, class_: nat, ttl: nat, rdata: bytes)

  ghost predicate ValidOwner(labels: seq<bytes>)
  {
    ValidLabels(labels) && |labels| <= 127
  }

  ghost predicate ValidQuestion(q: Question)
  {
    ValidOwner(q.labels) && |q.typeAndClass| == 4
  }

  ghost predicate ValidResource(r: Resource)
  {
    && ValidOwner(r.labels)
    && r.typ < 0x1_0000 && r.class_ < 0x1_0000 && r.ttl < 0x1_0000_0000 && |r.rdata| < 0x1_0000
  }

  ghost function EncodeOwner(labels: seq<bytes>): (b: bytes)
    requires ValidLabels(labels)
  {
    EncodeLabels(labels) + [0]
  }

  ghost function EncodeQuestions(qs: seq<Question>): (b: bytes)
    requires forall i :: 0 <= i < |qs| ==> ValidQuestion(qs[i])
  {
    if qs == [] then []
    else
      assert ValidQuestion(qs[0]);
      EncodeOwner(qs[0].labels) + qs[0].typeAndClass + EncodeQuestions(qs[1..])
  }

  ghost function EncodeResources(rs: seq<Resource>): (b: bytes)
    requires forall i :: 0 <= i < |rs| ==> ValidResource(rs[i])
  {
    if rs == [] then []
    else
      assert ValidResource(rs[0]);
      EncodeOwner(rs[0].labels) + EncodeRecord(rs[0].typ, rs[0].class_, rs[0].ttl, rs[0].rdata)
      + EncodeResources(rs[1..])
  }

  ghost function RecordsOf(rs: seq<Resource>): (r: seq<Record>)
    ensures |r| == |rs|
  {
    seq(|rs|, i requires 0 <= i < |rs| => Record(Join(rs[i].labels), rs[i].typ, rs[i].ttl, rs[i].rdata))
  }

  lemma {:induction false} QuestionsAreSkipped(before: bytes, qs: seq<Question>, after: bytes)
    requires forall i :: 0 <= i < |qs| ==> ValidQuestion(qs[i])
    ensures AfterQuestions(before + EncodeQuestions(qs) + after, |before|, |qs|)
         == Some(|before| + |EncodeQuestions(qs)|)
    decreases |qs|
  {
    hide ReadName, ValidLabels, EncodeOwner;
    if qs != [] {
      var q := qs[0];
      assert ValidQuestion(q);
      var owner, tail := EncodeOwner(q.labels), EncodeQuestions(qs[1..]);
      var p := before + EncodeQuestions(qs) + after;
      OwnerIsRead(before, q.labels, q.typeAndClass + tail + after);
      assert p == before + owner + (q.typeAndClass + tail + after);
      var next := before + owner + q.typeAndClass;
      QuestionsAreSkipped(next, qs[1..], after);
      assert p == next + tail + after;
    }
  }

  lemma OwnerIsRead(before: bytes, labels: seq<bytes>, after: bytes)
    requires ValidOwner(labels)
    ensures ReadName(before + EncodeOwner(labels) + after, |before|, {}, 0)
         == Read(Join(labels), |before| + |EncodeOwner(labels)|)
  {
    UncompressedRoundTrip(before, labels, after);
  }

  lemma ResourceIsRead(before: bytes, r: Resource, after: bytes)
    requires ValidResource(r)
    ensures var wire := EncodeOwner(r.labels) + EncodeRecord(r.typ, r.class_, r.ttl, r.rdata);
            RecordAt(before + wire + after, |before|)
            == Some((Record(Join(r.labels), r.typ, r.ttl, r.rdata), |before| + |wire|))
  {
    hide ReadName, EncodeOwner, EncodeRecord, U16, U32, ValidLabels;
    var owner, body := EncodeOwner(r.labels), EncodeRecord(r.typ, r.class_, r.ttl, r.rdata);
    var p := before + (owner + body) + after;
    OwnerIsRead(before, r.labels, body + after);
    assert p == before + owner + (body + after);
    var i := |before| + |owner|;
    assert p[i..i + |body|] == body;
    EncodeRecordAt(p, i, r.typ, r.class_, r.ttl, r.rdata);
  }

  lemma {:induction false} ResourcesAreRead(before: bytes, rs: seq<Resource>, after: bytes)
    requires forall i :: 0 <= i < |rs| ==> ValidResource(rs[i])
    ensures RecordsFrom(before + EncodeResources(rs) + after, |before|, |rs|) == RecordsOf(rs)
    decreases |rs|
  {
    hide RecordAt, EncodeOwner, EncodeRecord, ValidResource, Join, RecordsOf;
    if rs != [] {
      var r := rs[0];
      assert ValidResource(r);
      ResourceValid(r);
      var wire, tail := EncodeOwner(r.labels) + EncodeRecord(r.typ, r.class_, r.ttl, r.rdata), EncodeResources(rs[1..]);
      var p := before + (wire + tail) + after;
      assert EncodeResources(rs) == wire + tail;
      ResourceIsRead(before, r, tail + after);
      ResourcesAreRead(before + wire, rs[1..], after);
      Regroup(before, wire, tail, after);
      RecordsOfHead(rs);
    }
  }

  lemma RecordsOfHead(rs: seq<Resource>)
    requires rs != []
    ensures RecordsOf(rs) == [Record(Join(rs[0].labels), rs[0].typ, rs[0].ttl, rs[0].rdata)] + RecordsOf(rs[1..])
  {
    hide Join;
  }

  lemma ResourceValid(r: Resource)
    requires ValidResource(r)
    ensures ValidLabels(r.labels)
    ensures r.typ < 0x1_0000 && r.class_ < 0x1_0000 && r.ttl < 0x1_0000_0000 && |r.rdata| < 0x1_0000
  {
  }

  /**
   * A response written out with its questions and answers is read back: exactly the answers, in order,
   * whatever the identifier, the other flags, the other counts and the bytes after them.
   */
  lemma ResponseRoundTrip(id: bytes, flags: bytes, otherCounts: bytes, qs: seq<Question>, rs: seq<Resource>,
                          after: bytes)
    requires |id| == 2 && |flags| == 2 && flags[0] >= 0x80 && |otherCounts| == 4
    requires |qs| < 0x1_0000 && forall i :: 0 <= i < |qs| ==> ValidQuestion(qs[i])
    requires |rs| < 0x1_0000 && forall i :: 0 <= i < |rs| ==> ValidResource(rs[i])
    ensures var header := id + flags + PutU16(|qs|) + PutU16(|rs|) + otherCounts;
            RecordsReached(header + EncodeQuestions(qs) + EncodeResources(rs) + after) == RecordsOf(rs)
  {
    hide EncodeQuestions, EncodeResources, ValidQuestion, ValidResource, RecordsFrom, AfterQuestions, RecordsReached;
    hide PutU16, U16, RecordsOf;
    var header := id + flags + PutU16(|qs|) + PutU16(|rs|) + otherCounts;
    var questions, answers := EncodeQuestions(qs), EncodeResources(rs);
    var p := header + questions + answers + after;
    HeaderFields(id, flags, otherCounts, |qs|, |rs|, questions + answers + after);
    assert p == header + (questions + answers + after);
    QuestionsAreSkipped(header, qs, answers + after);
    assert p == header + questions + (answers + after);
    ResourcesAreRead(header + questions, rs, after);
    GuardNeverRejectsWholePackets(p);
  }

  lemma HeaderFields(id: bytes, flags: bytes, otherCounts: bytes, qd: nat, an: nat, body: bytes)
    requires |id| == 2 && |flags| == 2 && |otherCounts| == 4 && qd < 0x1_0000 && an < 0x1_0000
    ensures var p := id + flags + PutU16(qd) + PutU16(an) + otherCounts + body;
            |p| >= 12 && p[2] == flags[0] && U16(p, 4) == qd && U16(p, 6) == an
  {
    var p := id + flags + PutU16(qd) + PutU16(an) + otherCounts + body;
    assert p[4..6] == PutU16(qd);
    assert p[6..8] == PutU16(an);
    AtU16(p, 4, qd);
    AtU16(p, 6, an);
  }
}
