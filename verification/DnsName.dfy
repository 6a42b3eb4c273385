/**
 * Reading a domain name from a DNS message (sections 3.1 and 4.1.4 of RFC 1035). Compression pointers
 * are followed at most 32 deep and never twice to the same offset; each stretch of labels between
 * pointers takes at most 128 steps.
 */
module DnsName {
  import opened Bytes
  import opened Collections

  const MAX_POINTER_DEPTH := 32
  const MAX_LABEL_STEPS := 128

  datatype Reading = Failed | Read(name: bytes, next: nat)

  function Join(labels: seq<bytes>): (r: bytes)
  {
    if labels == [] then []
    else if |labels| == 1 then labels[0]
    else labels[0] + [DOT] + Join(labels[1..])
  }

  // ---------- The reader, as a function of the packet ----------

  function ReadName(p: bytes, offset: nat, visited: set<int>, depth: nat): (r: Reading)
    ensures r.Read? ==> offset < r.next <= |p|
    decreases MAX_POINTER_DEPTH + 1 - depth, MAX_LABEL_STEPS + 1
  {
    if depth > MAX_POINTER_DEPTH then Failed else ReadLabels(p, offset, visited, depth, 0, [])
  }

  /** The loop of the reader after `step` labels, which are `labels`. */
  function ReadLabels(p: bytes, offset: nat, visited: set<int>, depth: nat, step: nat, labels: seq<bytes>)
    : (r: Reading)
    requires depth <= MAX_POINTER_DEPTH && step <= MAX_LABEL_STEPS
    ensures r.Read? ==> offset < r.next <= |p|
    decreases MAX_POINTER_DEPTH + 1 - depth, MAX_LABEL_STEPS - step
  {
    if step == MAX_LABEL_STEPS || offset >= |p| then Failed else
    var b := U8(p, offset);
    if b == 0 then Read(Join(labels), offset + 1)
    else if b >= 0xC0 then
      if offset + 1 >= |p| then Failed else
      var ptr := 256 * (b - 0xC0) + U8(p, offset + 1);
      if ptr >= |p| || ptr in visited then Failed else
      var suffix := ReadName(p, ptr, visited + {ptr}, depth + 1);
      if suffix.Failed? then Failed
      else Read(if labels == [] then suffix.name else Join(labels) + [DOT] + suffix.name, offset + 2)
    else if b > 63 || offset + 1 + b > |p| then Failed
    else ReadLabels(p, offset + 1 + b, visited, depth, step + 1, labels + [p[offset + 1..offset + 1 + b]])
  }

  lemma ReadNameLabels(p: bytes, offset: nat, visited: set<int>, depth: nat)
    ensures ReadName(p, offset, visited, depth) ==
            if depth > MAX_POINTER_DEPTH then Failed else ReadLabels(p, offset, visited, depth, 0, [])
  {
    hide ReadLabels;
  }

  // ---------- The reader as the source runs it ----------

  /** `packet[i] & 0xC0 == 0xC0` is `packet[i] >= 0xC0` on a byte, and `& 0x3F` then subtracts 0xC0. */
  method ReadDNSNameSafe(packet: bytes, start: nat, visited: set<int>, depth: nat)
    returns (name: bytes, next: nat, ok: bool)
    ensures ReadName(packet, start, visited, depth) == if ok then Read(name, next) else Failed
    decreases MAX_POINTER_DEPTH + 1 - depth
  {
    hide Join, ReadName;
    ReadNameLabels(packet, start, visited, depth);
    if depth > MAX_POINTER_DEPTH {
      return [], 0, false;
    }
    var offset: nat := start;
    var labels: seq<bytes> := [];
    for step := 0 to MAX_LABEL_STEPS
      invariant ReadName(packet, start, visited, depth) == ReadLabels(packet, offset, visited, depth, step, labels)
    {
      if offset >= |packet| {
        return [], 0, false;
      }
      var b := U8(packet, offset);
      offset := offset + 1;
      if b == 0 {
        return Join(labels), offset, true;
      }
      if b >= 0xC0 {
        if offset >= |packet| {
          return [], 0, false;
        }
        var ptr := 256 * (b - 0xC0) + U8(packet, offset);
        offset := offset + 1;
        if ptr >= |packet| {
          return [], 0, false;
        }
        if ptr in visited {
          return [], 0, false;
        }
        var suffix, _, found := ReadDNSNameSafe(packet, ptr, visited + {ptr}, depth + 1);
        if !found {
          return [], 0, false;
        }
        if |labels| == 0 {
          return suffix, offset, true;
        }
        return Join(labels) + [DOT] + suffix, offset, true;
      }
      if b > 63 || offset + b > |packet| {
        return [], 0, false;
      }
      labels := labels + [packet[offset..offset + b]];
      offset := offset + b;
    }
    return [], 0, false;
  }

  // ---------- How a name lies in a packet ----------

  /** Labels, then either the root or a pointer to where the rest of the name lies. */
  datatype Chain =
    | End(labels: seq<bytes>)
    | Hop(labels: seq<bytes>, target: nat, rest: Chain)

  ghost predicate ValidLabel(s: bytes)
  {
    0 < |s| < 64
  }

  ghost predicate ValidLabels(labels: seq<bytes>)
  {
    forall s :: s in labels ==> ValidLabel(s)
  }

  ghost function EncodeLabels(labels: seq<bytes>): (b: bytes)
    requires ValidLabels(labels)
  {
    if labels == [] then []
    else
      assert ValidLabel(labels[0]);
      Vec8(labels[0]) + EncodeLabels(labels[1..])
  }

  ghost function EncodePointer(target: nat): (b: bytes)
    requires target < 0x4000
    ensures |b| == 2
  {
    [0xC0 + target / 256, target % 256]
  }

  /** The bytes of the stretch that starts the chain. */
  ghost function EncodeHead(c: Chain): (b: bytes)
    requires ValidLabels(c.labels) && (c.Hop? ==> c.target < 0x4000)
  {
    EncodeLabels(c.labels) + (if c.End? then [0] else EncodePointer(c.target))
  }

  ghost predicate Lies(p: bytes, offset: nat, c: Chain)
    decreases c
  {
    && ValidLabels(c.labels) && (c.Hop? ==> c.target < 0x4000)
    && At(p, offset, EncodeHead(c))
    && (c.Hop? ==> Lies(p, c.target, c.rest))
  }

  /** The budgets of the reader: labels per stretch, pointer depth, no pointer followed twice. */
  ghost predicate WithinBudget(c: Chain, visited: set<int>, depth: nat)
    decreases c
  {
    && |c.labels| < MAX_LABEL_STEPS && depth <= MAX_POINTER_DEPTH
    && (c.Hop? ==> c.target !in visited && WithinBudget(c.rest, visited + {c.target}, depth + 1))
  }

  ghost function Hops(c: Chain): (n: nat)
  {
    if c.End? then 0 else 1 + Hops(c.rest)
  }

  /** The text the reader makes of a chain. */
  ghost function Render(c: Chain): (r: bytes)
  {
    match c
    case End(labels) => Join(labels)
    case Hop(labels, _, rest) => if labels == [] then Render(rest) else Join(labels) + [DOT] + Render(rest)
  }

  lemma AtPointer(p: bytes, i: nat, target: nat)
    requires target < 0x4000
    ensures At(p, i, EncodePointer(target)) <==>
            i + 2 <= |p| && U8(p, i) >= 0xC0 && 256 * (U8(p, i) - 0xC0) + U8(p, i + 1) == target
  {
    if i + 2 <= |p| {
      assert p[i..i + 2] == [p[i], p[i + 1]];
    }
  }

  lemma LiesSomewhere(p: bytes, offset: nat, c: Chain)
    requires Lies(p, offset, c)
    ensures offset < |p| && ValidLabels(c.labels)
  {
  }

  /** A chain is either at its root, at a pointer, or at a label followed by the rest of the chain. */
  lemma LiesByCase(p: bytes, offset: nat, c: Chain)
    requires ValidLabels(c.labels)
    ensures c.labels == [] && c.End? ==> (Lies(p, offset, c) <==> offset < |p| && U8(p, offset) == 0)
    ensures c.labels == [] && c.Hop? ==>
            (Lies(p, offset, c) <==>
             && c.target < 0x4000 && offset + 2 <= |p| && U8(p, offset) >= 0xC0
             && 256 * (U8(p, offset) - 0xC0) + U8(p, offset + 1) == c.target && Lies(p, c.target, c.rest))
    ensures c.labels != [] ==>
            var s := c.labels[0];
            && ValidLabel(s)
            && (Lies(p, offset, c) <==>
                && offset + 1 + |s| <= |p| && U8(p, offset) == |s|
                && p[offset + 1..offset + 1 + |s|] == s
                && Lies(p, offset + 1 + |s|, c.(labels := c.labels[1..])))
    ensures Lies(p, offset, c) && c.labels == [] ==> |EncodeHead(c)| == if c.End? then 1 else 2
    ensures Lies(p, offset, c) && c.labels != [] ==>
            |EncodeHead(c)| == 1 + |c.labels[0]| + |EncodeHead(c.(labels := c.labels[1..]))|
  {
    hide Lies, EncodeHead;
    if c.labels == [] {
      LiesWithoutLabels(p, offset, c);
    } else {
      LiesAtLabel(p, offset, c);
    }
  }

  lemma LiesWithoutLabels(p: bytes, offset: nat, c: Chain)
    requires c.labels == []
    ensures c.End? ==> (Lies(p, offset, c) <==> offset < |p| && U8(p, offset) == 0)
    ensures c.Hop? ==>
            (Lies(p, offset, c) <==>
             && c.target < 0x4000 && offset + 2 <= |p| && U8(p, offset) >= 0xC0
             && 256 * (U8(p, offset) - 0xC0) + U8(p, offset + 1) == c.target && Lies(p, c.target, c.rest))
    ensures Lies(p, offset, c) ==> |EncodeHead(c)| == if c.End? then 1 else 2
  {
    hide At, EncodePointer;
    if c.End? {
      assert EncodeHead(c) == [0];
      AtByte(p, offset, 0);
    } else if c.target < 0x4000 {
      assert EncodeHead(c) == EncodePointer(c.target);
      AtPointer(p, offset, c.target);
    }
  }

  lemma LiesAtLabel(p: bytes, offset: nat, c: Chain)
    requires c.labels != [] && ValidLabels(c.labels)
    ensures var s, tail := c.labels[0], c.(labels := c.labels[1..]);
            && ValidLabel(s)
            && (Lies(p, offset, c) <==>
                && offset + 1 + |s| <= |p| && U8(p, offset) == |s|
                && p[offset + 1..offset + 1 + |s|] == s && Lies(p, offset + 1 + |s|, tail))
            && (Lies(p, offset, c) ==> |EncodeHead(c)| == 1 + |s| + |EncodeHead(tail)|)
  {
    hide EncodePointer, EncodeLabels;
    var s, tail := c.labels[0], c.(labels := c.labels[1..]);
    assert ValidLabel(s);
    if c.Hop? ==> c.target < 0x4000 {
      HeadOfLabel(c);
      AtConcat(p, offset, Vec8(s), EncodeHead(tail));
      AtVec8(p, offset, s);
    }
  }

  lemma HeadOfLabel(c: Chain)
    requires c.labels != [] && ValidLabels(c.labels) && (c.Hop? ==> c.target < 0x4000)
    ensures ValidLabel(c.labels[0]) && EncodeHead(c) == Vec8(c.labels[0]) + EncodeHead(c.(labels := c.labels[1..]))
  {
    hide EncodePointer;
    assert ValidLabel(c.labels[0]);
  }

  // ---------- The reader accepts exactly the chains within budget ----------

  ghost function Prepend(labels: seq<bytes>, c: Chain): (r: Chain)
  {
    c.(labels := labels + c.labels)
  }

  lemma {:induction false} ReadLabelsComplete(p: bytes, offset: nat, visited: set<int>, depth: nat,
                                              labels: seq<bytes>, c: Chain)
    requires Lies(p, offset, c) && WithinBudget(Prepend(labels, c), visited, depth)
    ensures ReadLabels(p, offset, visited, depth, |labels|, labels)
         == Read(Render(Prepend(labels, c)), offset + |EncodeHead(c)|)
    decreases Hops(c), |c.labels|
  {
    hide Lies, EncodeHead, ValidLabels, Join;
    LiesSomewhere(p, offset, c);
    LiesByCase(p, offset, c);
    if c.labels != [] {
      var s, tail := c.labels[0], c.(labels := c.labels[1..]);
      assert Prepend(labels + [s], tail) == Prepend(labels, c);
      ReadLabelsComplete(p, offset + 1 + |s|, visited, depth, labels + [s], tail);
    } else {
      assert labels + [] == labels;
      if c.Hop? {
        LiesSomewhere(p, c.target, c.rest);
        assert Prepend([], c.rest) == c.rest;
        ReadLabelsComplete(p, c.target, visited + {c.target}, depth + 1, [], c.rest);
      }
    }
  }

  lemma {:induction false} ReadLabelsSound(p: bytes, offset: nat, visited: set<int>, depth: nat,
                                           labels: seq<bytes>) returns (c: Chain)
    requires depth <= MAX_POINTER_DEPTH && |labels| <= MAX_LABEL_STEPS
    requires ReadLabels(p, offset, visited, depth, |labels|, labels).Read?
    ensures Lies(p, offset, c) && WithinBudget(Prepend(labels, c), visited, depth)
    decreases MAX_POINTER_DEPTH - depth, MAX_LABEL_STEPS - |labels|
  {
    hide Lies, EncodeHead, Join, ValidLabels;
    NoLabelsValid();
    var b := U8(p, offset);
    if b == 0 {
      c := End([]);
      LiesByCase(p, offset, c);
    } else if b >= 0xC0 {
      var ptr := 256 * (b - 0xC0) + U8(p, offset + 1);
      var rest := ReadLabelsSound(p, ptr, visited + {ptr}, depth + 1, []);
      assert Prepend([], rest) == rest;
      c := Hop([], ptr, rest);
      LiesByCase(p, offset, c);
    } else {
      var s := p[offset + 1..offset + 1 + b];
      var tail := ReadLabelsSound(p, offset + 1 + b, visited, depth, labels + [s]);
      c := LiesAfterLabel(p, offset, s, tail);
      assert Prepend(labels + [s], tail) == Prepend(labels, c);
    }
  }

  lemma NoLabelsValid()
    ensures ValidLabels([])
  {
  }

  lemma LiesAfterLabel(p: bytes, offset: nat, s: bytes, tail: Chain) returns (c: Chain)
    requires ValidLabel(s) && offset + 1 + |s| <= |p| && U8(p, offset) == |s|
    requires p[offset + 1..offset + 1 + |s|] == s && Lies(p, offset + 1 + |s|, tail)
    ensures c == Prepend([s], tail) && Lies(p, offset, c)
  {
    hide Lies, EncodeHead;
    LiesSomewhere(p, offset + 1 + |s|, tail);
    c := Prepend([s], tail);
    assert c.(labels := c.labels[1..]) == tail;
    LiesByCase(p, offset, c);
  }

  /** What the reader returns for a name that starts at `offset`. */
  ghost predicate Reads(p: bytes, offset: nat, name: bytes, next: nat, c: Chain)
  {
    && Lies(p, offset, c) && WithinBudget(c, {}, 0)
    && name == Render(c) && next == offset + |EncodeHead(c)|
  }

  /**
   * The reader succeeds exactly when a name lies at the offset whose stretches and pointers stay
   * within budget, and then returns its text and the end of its first stretch.
   */
  lemma ReadNameCharacterised(p: bytes, offset: nat, name: bytes, next: nat)
    ensures ReadName(p, offset, {}, 0) == Read(name, next) <==> exists c :: Reads(p, offset, name, next, c)
  {
    if ReadName(p, offset, {}, 0) == Read(name, next) {
      var c := ReadLabelsSound(p, offset, {}, 0, []);
      assert Prepend([], c) == c;
      ReadLabelsComplete(p, offset, {}, 0, [], c);
      assert Reads(p, offset, name, next, c);
    }
    if c :| Reads(p, offset, name, next, c) {
      assert Prepend([], c) == c;
      ReadLabelsComplete(p, offset, {}, 0, [], c);
    }
  }

  // ---------- The budget, in plain terms ----------

  ghost function Targets(c: Chain): (r: seq<nat>)
    ensures |r| == Hops(c)
  {
    if c.End? then [] else [c.target] + Targets(c.rest)
  }

  ghost predicate ShortStretches(c: Chain)
  {
    |c.labels| <= 127 && (c.Hop? ==> ShortStretches(c.rest))
  }

  lemma {:induction false} BudgetFrom(c: Chain, visited: set<int>, depth: nat)
    ensures WithinBudget(c, visited, depth) <==>
            && ShortStretches(c) && depth + Hops(c) <= 32 && NoRepeats(Targets(c))
            && forall t :: t in Targets(c) ==> t !in visited
    decreases c
  {
    if c.Hop? {
      var ts, us := Targets(c), Targets(c.rest);
      BudgetFrom(c.rest, visited + {c.target}, depth + 1);
      assert forall i :: 0 <= i < |us| ==> us[i] == ts[i + 1];
      if NoRepeats(ts) {
        assert forall i :: 0 <= i < |us| ==> ts[0] != us[i];
      }
    }
  }

  /** Up to 127 labels a stretch, up to 32 pointers, all to different offsets. */
  lemma BudgetIs(c: Chain)
    ensures WithinBudget(c, {}, 0) <==> ShortStretches(c) && Hops(c) <= 32 && NoRepeats(Targets(c))
  {
    BudgetFrom(c, {}, 0);
  }

  // ---------- The labels can be got back from the name ----------

  /** The pieces of a text between its dots. */
  ghost function SplitDots(b: bytes): (r: seq<bytes>)
    ensures |r| > 0
  {
    if b == [] then [[]]
    else
      var r := SplitDots(b[1..]);
      if b[0] == 0x2E then [[]] + r else [[b[0]] + r[0]] + r[1..]
  }

  lemma {:induction false} SplitFirst(s: bytes, t: bytes)
    requires 0x2E !in s
    ensures SplitDots(s + [0x2E] + t) == [s] + SplitDots(t)
  {
    var b := s + [0x2E] + t;
    if s == [] {
      assert b[1..] == t;
    } else {
      SplitFirst(s[1..], t);
      assert b[1..] == s[1..] + [0x2E] + t;
      assert [s[0]] + s[1..] == s;
    }
  }

  lemma {:induction false} SplitWhole(s: bytes)
    requires 0x2E !in s
    ensures SplitDots(s) == [s]
  {
    if s != [] {
      SplitWhole(s[1..]);
      assert [s[0]] + s[1..] == s;
    }
  }

  ghost predicate DotFree(labels: seq<bytes>)
  {
    forall i :: 0 <= i < |labels| ==> 0x2E !in labels[i]
  }

  lemma {:induction false} SplitJoin(labels: seq<bytes>)
    requires labels != [] && DotFree(labels)
    ensures SplitDots(Join(labels)) == labels
  {
    if |labels| == 1 {
      SplitWhole(labels[0]);
    } else {
      SplitJoin(labels[1..]);
      SplitFirst(labels[0], Join(labels[1..]));
      assert [labels[0]] + labels[1..] == labels;
    }
  }

  /**
   * What is read is the labels and nothing else: for labels without a dot, cutting the name at its dots
   * gives them back, with one empty piece at the end when the name ends through a pointer to the root.
   */
  lemma LabelsReadBack(p: bytes, offset: nat, c: Chain)
    requires Lies(p, offset, c) && WithinBudget(c, {}, 0) && DotFree(Flat(c))
    ensures ReadName(p, offset, {}, 0).Read?
    ensures var name := ReadName(p, offset, {}, 0).name;
            if Flat(c) == [] then name == []
            else SplitDots(name) == Flat(c) + (if EndsAtBareRoot(c) then [[]] else [])
  {
    hide Lies, EncodeHead, ReadName, SplitDots, Join;
    NameOf(p, offset, c);
    RenderIsJoin(c);
    JoinOfNone();
    assert Join(Flat(c)) + [] == Join(Flat(c));
    if EndsAtBareRoot(c) {
      JoinConcat(Flat(c), [[]]);
      SplitJoin(Flat(c) + [[]]);
      assert Join(Flat(c)) + [DOT] + [] == Join(Flat(c)) + [DOT];
    } else if Flat(c) != [] {
      SplitJoin(Flat(c));
      assert Flat(c) + [] == Flat(c);
    }
  }

  lemma NameOf(p: bytes, offset: nat, c: Chain)
    requires Lies(p, offset, c) && WithinBudget(c, {}, 0)
    ensures ReadName(p, offset, {}, 0).Read? && ReadName(p, offset, {}, 0).name == Render(c)
  {
    hide Lies, EncodeHead;
    assert Prepend([], c) == c;
    ReadLabelsComplete(p, offset, {}, 0, [], c);
  }

  lemma JoinOfNone()
    ensures Join([]) == [] && Join([[]]) == []
  {
  }

  // ---------- Compression keeps the name ----------

  ghost function Flat(c: Chain): (r: seq<bytes>)
  {
    if c.End? then c.labels else c.labels + Flat(c.rest)
  }

  ghost function LastStretch(c: Chain): (r: seq<bytes>)
  {
    if c.End? then c.labels else LastStretch(c.rest)
  }

  /** Some label is written and then the name ends through a pointer to the root. */
  ghost predicate EndsAtBareRoot(c: Chain)
  {
    Flat(c) != [] && LastStretch(c) == []
  }

  lemma {:induction false} JoinConcat(a: seq<bytes>, b: seq<bytes>)
    requires a != [] && b != []
    ensures Join(a + b) == Join(a) + [DOT] + Join(b)
  {
    if |a| > 1 {
      JoinConcat(a[1..], b);
      assert (a + b)[1..] == a[1..] + b;
    } else {
      assert (a + b)[1..] == b;
    }
  }

  lemma {:induction false} RenderIsJoin(c: Chain)
    ensures Render(c) == Join(Flat(c)) + (if EndsAtBareRoot(c) then [DOT] else [])
    decreases c
  {
    hide Join;
    JoinOfNone();
    if c.Hop? {
      RenderIsJoin(c.rest);
      var own, rest := Join(c.labels), Join(Flat(c.rest));
      if c.labels == [] {
        assert Flat(c) == Flat(c.rest);
      } else if Flat(c.rest) == [] {
        assert Flat(c) == c.labels;
        BareRestEndsAtRoot(c.rest);
        assert own + [DOT] + [] == own + [DOT];
      } else {
        JoinConcat(c.labels, Flat(c.rest));
        assert own + [DOT] + (rest + [DOT]) == own + [DOT] + rest + [DOT];
      }
    }
  }

  lemma BareRestEndsAtRoot(c: Chain)
    requires Flat(c) == []
    ensures LastStretch(c) == []
  {
  }

  /**
   * A compressed name reads like the same labels written out, unless a label is followed by a pointer
   * to the bare root: then, and only then, the text carries a trailing dot.
   */
  lemma CompressionKeepsName(p: bytes, offset: nat, c: Chain, q: bytes, at: nat)
    requires Lies(p, offset, c) && WithinBudget(c, {}, 0)
    requires |Flat(c)| <= 127 && Lies(q, at, End(Flat(c)))
    ensures ReadName(p, offset, {}, 0).Read? && ReadName(q, at, {}, 0).Read?
    ensures ReadName(q, at, {}, 0).name == Join(Flat(c))
    ensures ReadName(p, offset, {}, 0).name == ReadName(q, at, {}, 0).name <==> !EndsAtBareRoot(c)
    ensures EndsAtBareRoot(c) ==> ReadName(p, offset, {}, 0).name == ReadName(q, at, {}, 0).name + [DOT]
  {
    hide Lies, EncodeHead;
    RenderIsJoin(c);
    assert Prepend([], c) == c && Prepend([], End(Flat(c))) == End(Flat(c));
    ReadLabelsComplete(p, offset, {}, 0, [], c);
    ReadLabelsComplete(q, at, {}, 0, [], End(Flat(c)));
  }

  lemma ExampleLies(p: bytes, q: bytes, a: bytes)
    requires p == [0, 1, 0x61, 0xC0, 0] && q == [1, 0x61, 0] && a == [0x61]
    ensures Lies(p, 1, Hop([a], 0, End([]))) && Lies(q, 0, End([a]))
  {
    var c := Hop([a], 0, End([]));
    assert EncodeLabels([a]) == [1, 0x61];
    assert EncodeHead(c.rest) == [0] && p[0..1] == [0];
    assert EncodeHead(c) == [1, 0x61, 0xC0, 0] && p[1..5] == [1, 0x61, 0xC0, 0];
    assert EncodeHead(End([a])) == [1, 0x61, 0] && q[0..3] == [1, 0x61, 0];
    assert Lies(p, 0, c.rest);
  }

  /** The label `a` and a pointer to the root at offset 0 read as `a.`; written out, the name reads as `a`. */
  lemma TrailingDotExample()
    ensures var pointed, flat := ReadName([0, 1, 0x61, 0xC0, 0], 1, {}, 0), ReadName([1, 0x61, 0], 0, {}, 0);
            pointed.Read? && flat.Read? && pointed.name == [0x61, DOT] && flat.name == [0x61]
  {
    hide ReadName, Lies;
    var a: bytes := [0x61];
    var c := Hop([a], 0, End([]));
    ExampleLies([0, 1, 0x61, 0xC0, 0], [1, 0x61, 0], a);
    assert Flat(c) == [a] && LastStretch(c) == [];
    CompressionKeepsName([0, 1, 0x61, 0xC0, 0], 1, c, [1, 0x61, 0], 0);
  }

  /** Writing labels out and reading them back: it works for up to 127 labels and for no more. */
  lemma UncompressedRoundTrip(before: bytes, labels: seq<bytes>, after: bytes)
    requires ValidLabels(labels)
    ensures var wire := EncodeLabels(labels) + [0];
            ReadName(before + wire + after, |before|, {}, 0) ==
            if |labels| <= 127 then Read(Join(labels), |before| + |wire|) else Failed
  {
    var wire := EncodeLabels(labels) + [0];
    var p := before + wire + after;
    assert p[|before|..|before| + |wire|] == wire;
    assert EncodeHead(End(labels)) == wire;
    assert Lies(p, |before|, End(labels));
    if |labels| <= 127 {
      assert Prepend([], End(labels)) == End(labels);
      ReadLabelsComplete(p, |before|, {}, 0, [], End(labels));
    } else {
      TooManyLabels(p, |before|, {}, 0, [], End(labels));
    }
  }

  lemma TooManyValid(p: bytes, offset: nat, c: Chain)
    requires Lies(p, offset, c)
    ensures ValidLabels(c.labels)
  {
  }

  lemma {:induction false} TooManyLabels(p: bytes, offset: nat, visited: set<int>, depth: nat,
                                         labels: seq<bytes>, c: Chain)
    requires Lies(p, offset, c) && depth <= MAX_POINTER_DEPTH
    requires |labels| <= MAX_LABEL_STEPS <= |labels| + |c.labels|
    ensures ReadLabels(p, offset, visited, depth, |labels|, labels).Failed?
    decreases |c.labels|
  {
    hide Lies, EncodeHead, Join;
    if |labels| < MAX_LABEL_STEPS {
      TooManyValid(p, offset, c);
      LiesByCase(p, offset, c);
      var s := c.labels[0];
      TooManyLabels(p, offset + 1 + |s|, visited, depth, labels + [s], c.(labels := c.labels[1..]));
    }
  }
}
