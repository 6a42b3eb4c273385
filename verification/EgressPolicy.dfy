/**
 * The egress policy: literal addresses, allowed and ignored networks, and the classifier that scans
 * them in order. An address is a 32-bit number.
 */
module EgressPolicy {
  import opened Bytes
  import opened Text

  type Addr = n: int | 0 <= n < 0x1_0000_0000

  /**
   * A parsed network. `Mapped` is an IPv4-mapped IPv6 prefix: its address is IPv4 and `ones` counts the
   * bits after the first 96, but its mask has 128 bits. `Unusable` is a nil entry, or one whose masked
   * address is not IPv4.
   */
  datatype Net = Net4(addr: Addr, ones: nat) | Mapped(addr: Addr, ones: nat) | Unusable

  datatype Policy = Policy(enabled: bool, exactHosts: set<bytes>, wildSuffixes: seq<bytes>,
                           ips: set<Addr>, nets: seq<Net>, ignored: seq<Net>)

  datatype Class = Monitor | Allowed | NotListed | Unknown | Ignored

  ghost predicate ValidNets(nets: seq<Net>)
  {
    forall n :: n in nets && !n.Unusable? ==> n.ones <= 32
  }

  /** What parsing leaves behind: prefix lengths fit, and any allowlist entry enables the policy. */
  ghost predicate ValidPolicy(p: Policy)
  {
    && ValidNets(p.nets) && ValidNets(p.ignored)
    && (p.ips != {} || p.nets != [] || p.exactHosts != {} || p.wildSuffixes != [] ==> p.enabled)
  }

  // ---------- Prefixes ----------

  /** `a` with its lowest `n` bits cleared. */
  function ClearLow(a: nat, n: nat): (r: nat)
    ensures r <= a
    decreases n
  {
    if n == 0 then a else 2 * ClearLow(a / 2, n - 1)
  }

  lemma {:induction false} ClearLowTwice(a: nat, n: nat)
    ensures ClearLow(ClearLow(a, n), n) == ClearLow(a, n)
    decreases n
  {
    if n > 0 {
      var half := ClearLow(a / 2, n - 1);
      assert 2 * half / 2 == half;
      ClearLowTwice(a / 2, n - 1);
    }
  }

  /** Addresses that agree above bit `n` agree above any higher bit. */
  lemma {:induction false} ClearMore(a: nat, b: nat, n: nat, more: nat)
    requires n <= more && ClearLow(a, n) == ClearLow(b, n)
    ensures ClearLow(a, more) == ClearLow(b, more)
    decreases n
  {
    if n > 0 {
      ClearMore(a / 2, b / 2, n - 1, more - 1);
    }
  }

  ghost function Pow2(n: nat): (r: nat)
    ensures r > 0
  {
    if n == 0 then 1 else 2 * Pow2(n - 1)
  }

  /** The addresses of a block are those of its two halves. */
  lemma {:induction false} Halves(x: nat, a: nat, n: nat)
    requires n > 0 && ClearLow(a, n) == a
    ensures ClearLow(a, n - 1) == a && ClearLow(a + Pow2(n - 1), n - 1) == a + Pow2(n - 1)
    ensures ClearLow(x, n) == a <==> ClearLow(x, n - 1) == a || ClearLow(x, n - 1) == a + Pow2(n - 1)
    decreases n
  {
    var half := a / 2;
    assert a == 2 * half;
    if n > 1 {
      assert (a + Pow2(n - 1)) / 2 == half + Pow2(n - 2);
      Halves(x / 2, half, n - 1);
    }
  }

  lemma {:induction false} ClearLowNear(a: nat, n: nat)
    ensures a < ClearLow(a, n) + Pow2(n)
    decreases n
  {
    if n > 0 {
      ClearLowNear(a / 2, n - 1);
    }
  }

  lemma Powers()
    ensures Pow2(20) == 0x10_0000 && Pow2(24) == 0x100_0000 && Pow2(32) == 0x1_0000_0000
  {
    assert Pow2(8) == 0x100;
    assert Pow2(16) == 0x1_0000;
  }

  /** A block starts low enough to fit. */
  lemma {:induction false} BlockFits(a: nat, n: nat, bits: nat)
    requires n <= bits && ClearLow(a, n) == a && a < Pow2(bits)
    ensures a + Pow2(n) <= Pow2(bits)
    decreases n
  {
    if n > 0 {
      BlockFits(a / 2, n - 1, bits - 1);
    }
  }

  /** The network address: `ip & mask` for a mask with `ones` leading bits. */
  function Masked(a: Addr, ones: nat): (r: Addr)
    requires ones <= 32
    ensures ones == 32 ==> r == a
  {
    ClearLow(a, 32 - ones)
  }

  predicate Contains(n: Net, a: Addr)
    requires !n.Unusable? ==> n.ones <= 32
  {
    !n.Unusable? && Masked(n.addr, n.ones) == Masked(a, n.ones)
  }

  lemma {:induction false} ClearLowIsMultiple(a: nat, n: nat) returns (m: nat)
    ensures ClearLow(a, n) == m * Pow2(n)
    decreases n
  {
    m := a;
    if n > 0 {
      m := ClearLowIsMultiple(a / 2, n - 1);
      DoubleMultiple(m, n);
    }
  }

  lemma DoubleMultiple(m: nat, n: nat)
    requires n > 0
    ensures m * Pow2(n) == 2 * (m * Pow2(n - 1))
  {
  }

  lemma {:induction false} BlockOfMultiple(m: nat, n: nat, a: nat)
    requires m * Pow2(n) <= a < m * Pow2(n) + Pow2(n)
    ensures ClearLow(a, n) == m * Pow2(n)
    decreases n
  {
    if n > 0 {
      DoubleMultiple(m, n);
      BlockOfMultiple(m, n - 1, a / 2);
    }
  }

  /** Address `a` is in the `m`th block of 2^k addresses. */
  ghost predicate InBlock(m: nat, k: nat, a: nat)
  {
    m * Pow2(k) <= a < m * Pow2(k) + Pow2(k)
  }

  ghost predicate SameBlock(k: nat, a: nat, b: nat)
  {
    exists m: nat :: InBlock(m, k, a) && InBlock(m, k, b)
  }

  lemma SameBlockIs(k: nat, a: nat, b: nat)
    ensures SameBlock(k, a, b) <==> ClearLow(a, k) == ClearLow(b, k)
  {
    hide ClearLow, Pow2;
    if ClearLow(a, k) == ClearLow(b, k) {
      var m := ClearLowIsMultiple(a, k);
      ClearLowNear(a, k);
      ClearLowNear(b, k);
      assert InBlock(m, k, a) && InBlock(m, k, b);
    }
    if m: nat :| InBlock(m, k, a) && InBlock(m, k, b) {
      BlockOfMultiple(m, k, a);
      BlockOfMultiple(m, k, b);
    }
  }

  /** A prefix of `ones` bits stands for an aligned block of 2^(32 - ones) addresses. */
  lemma NetIsAlignedBlock(n: Net, a: Addr)
    requires !n.Unusable? && n.ones <= 32
    ensures Contains(n, a) <==> SameBlock(32 - n.ones, n.addr, a)
  {
    hide ClearLow, SameBlock;
    SameBlockIs(32 - n.ones, n.addr, a);
  }

  ghost predicate InNets(nets: seq<Net>, a: Addr)
    requires ValidNets(nets)
  {
    exists n :: n in nets && Contains(n, a)
  }

  method NetsContain(nets: seq<Net>, a: Addr) returns (r: bool)
    requires ValidNets(nets)
    ensures r == InNets(nets, a)
  {
    for i := 0 to |nets|
      invariant forall n :: n in nets[..i] ==> !Contains(n, a)
    {
      if Contains(nets[i], a) {
        return true;
      }
    }
    assert nets[..|nets|] == nets;
    return false;
  }

  // ---------- Merging network lists ----------

  /** Two entries print alike when they have the same address and prefix, whatever the mask width. */
  function Printed(n: Net): (r: Option<(Addr, nat)>)
  {
    if n.Unusable? then None else Some((n.addr, n.ones))
  }

  /** The usable entries that print like nothing before them. */
  ghost function FirstPrinted(all: seq<Net>): (r: seq<Net>)
  {
    if all == [] then []
    else
      var front, last := all[..|all| - 1], all[|all| - 1];
      if last.Unusable? || PrintsLike(front, last) then FirstPrinted(front)
      else FirstPrinted(front) + [last]
  }

  method MergeDedupedNets(a: seq<Net>, b: seq<Net>) returns (out: seq<Net>)
    ensures out == FirstPrinted(a + b)
  {
    hide FirstPrinted, PrintsLike;
    var all := a + b;
    var seen: set<Option<(Addr, nat)>> := {};
    out := [];
    SeenNothing();
    for i := 0 to |all|
      invariant out == FirstPrinted(all[..i]) && SeenAre(seen, all[..i])
    {
      var n := all[i];
      assert all[..i + 1] == all[..i] + [n];
      SeenMore(seen, all[..i], n);
      if !n.Unusable? && Printed(n) !in seen {
        seen := seen + {Printed(n)};
        out := out + [n];
      }
    }
    assert all[..|all|] == all;
  }

  /** The set holds what the usable entries print. */
  ghost predicate SeenAre(seen: set<Option<(Addr, nat)>>, nets: seq<Net>)
  {
    forall key :: key in seen <==> exists n :: n in nets && !n.Unusable? && Printed(n) == key
  }

  lemma SeenNothing()
    ensures SeenAre({}, []) && FirstPrinted([]) == []
  {
  }

  lemma SeenMore(seen: set<Option<(Addr, nat)>>, front: seq<Net>, n: Net)
    requires SeenAre(seen, front)
    ensures if n.Unusable? || Printed(n) in seen
            then SeenAre(seen, front + [n]) && FirstPrinted(front + [n]) == FirstPrinted(front)
            else SeenAre(seen + {Printed(n)}, front + [n]) && FirstPrinted(front + [n]) == FirstPrinted(front) + [n]
  {
    InSnoc(front, n);
    SeenPrint(seen, front, n);
    assert (front + [n])[..|front|] == front;
  }

  lemma SeenPrint(seen: set<Option<(Addr, nat)>>, front: seq<Net>, n: Net)
    requires SeenAre(seen, front)
    ensures !n.Unusable? ==> (PrintsLike(front, n) <==> Printed(n) in seen)
  {
  }

  ghost predicate PrintedOnce(nets: seq<Net>)
  {
    forall i, j :: 0 <= i < j < |nets| ==> Printed(nets[i]) != Printed(nets[j])
  }

  ghost predicate PrintsLike(nets: seq<Net>, n: Net)
  {
    exists m :: m in nets && Printed(m) == Printed(n)
  }

  lemma InSnoc<T>(s: seq<T>, x: T)
    ensures forall y :: y in s + [x] <==> y in s || y == x
  {
  }

  lemma PrintsLikeSnoc(s: seq<Net>, x: Net, n: Net)
    ensures PrintsLike(s + [x], n) <==> PrintsLike(s, n) || Printed(x) == Printed(n)
  {
    InSnoc(s, x);
  }

  lemma {:induction false} FirstPrintedFacts(all: seq<Net>, n: Net)
    ensures n in FirstPrinted(all) ==> n in all && !n.Unusable?
    ensures !n.Unusable? ==> (PrintsLike(FirstPrinted(all), n) <==> PrintsLike(all, n))
    ensures PrintedOnce(FirstPrinted(all))
  {
    if all != [] {
      var front, last := all[..|all| - 1], all[|all| - 1];
      assert all == front + [last];
      FirstPrintedFacts(front, n);
      FirstPrintedFacts(front, last);
      PrintsLikeSnoc(front, last, n);
      PrintsLikeSnoc(FirstPrinted(front), last, n);
    }
  }

  /** Merging neither gains nor loses an address, invents no entry, and keeps no two that print alike. */
  lemma FirstPrintedKeepsAddresses(all: seq<Net>)
    requires ValidNets(all)
    ensures PrintedOnce(FirstPrinted(all)) && ValidNets(FirstPrinted(all))
    ensures forall n :: n in FirstPrinted(all) ==> n in all && !n.Unusable?
    ensures forall a :: InNets(FirstPrinted(all), a) <==> InNets(all, a)
  {
    hide FirstPrinted, PrintedOnce;
    forall n: Net
      ensures n in FirstPrinted(all) ==> n in all && !n.Unusable?
      ensures n in all && !n.Unusable? ==> PrintsLike(FirstPrinted(all), n)
    {
      FirstPrintedFacts(all, n);
    }
    assert PrintedOnce(FirstPrinted(all)) by {
      FirstPrintedFacts(all, Unusable);
    }
    SameReach(FirstPrinted(all), all);
  }

  /** `n` stands at `i`, and nothing before it has its address and prefix length, whatever the mask width. */
  ghost predicate FirstAt(all: seq<Net>, n: Net, i: nat)
  {
    && i < |all| && all[i] == n && !n.Unusable?
    && forall j :: 0 <= j < i ==> all[j].Unusable? || all[j].addr != n.addr || all[j].ones != n.ones
  }

  lemma FirstAtSnoc(front: seq<Net>, last: Net, n: Net, i: nat)
    ensures i < |front| ==> (FirstAt(front + [last], n, i) <==> FirstAt(front, n, i))
    ensures FirstAt(front + [last], n, |front|) <==> n == last && !n.Unusable? && !PrintsLike(front, n)
  {
    var all := front + [last];
    assert forall j :: 0 <= j < |front| ==> all[j] == front[j];
    assert forall j :: 0 <= j < |front| ==> front[j] in front;
    if PrintsLike(front, n) {
      var x :| x in front && Printed(x) == Printed(n);
      var j :| 0 <= j < |front| && front[j] == x;
      assert all[j] == x;
    } else {
      assert forall j :: 0 <= j < |front| ==> Printed(front[j]) != Printed(n);
    }
  }

  ghost predicate FirstSomewhere(all: seq<Net>, n: Net)
  {
    exists i: nat :: FirstAt(all, n, i)
  }

  lemma FirstSomewhereSnoc(front: seq<Net>, last: Net, n: Net)
    ensures FirstSomewhere(front + [last], n) <==>
            FirstSomewhere(front, n) || (n == last && !n.Unusable? && !PrintsLike(front, n))
    ensures !FirstSomewhere([], n)
  {
    hide PrintsLike;
    var all := front + [last];
    FirstAtSnoc(front, last, n, 0);
    if i: nat :| FirstAt(all, n, i) {
      FirstAtSnoc(front, last, n, i);
    }
    if i: nat :| FirstAt(front, n, i) {
      FirstAtSnoc(front, last, n, i);
    }
  }

  /** An entry is kept exactly when it is the first of those that print like it, and the order is kept. */
  lemma {:induction false} FirstPrintedIs(all: seq<Net>, n: Net)
    ensures n in FirstPrinted(all) <==> exists i: nat :: FirstAt(all, n, i)
    ensures all != [] ==> FirstPrinted(all[..|all| - 1]) <= FirstPrinted(all)
  {
    hide FirstAt, PrintsLike, FirstPrinted, FirstSomewhere;
    if all == [] {
      FirstSomewhereSnoc([], Unusable, n);
      assert FirstPrinted([]) == [] by { NothingPrinted(); }
    } else {
      var front, last := all[..|all| - 1], all[|all| - 1];
      assert all == front + [last];
      FirstPrintedIs(front, n);
      FirstSomewhereIs(front, n);
      FirstSomewhereSnoc(front, last, n);
      FirstPrintedSnoc(front, last);
    }
    FirstSomewhereIs(all, n);
  }

  lemma NothingPrinted()
    ensures FirstPrinted([]) == []
  {
  }

  lemma FirstPrintedSnoc(front: seq<Net>, last: Net)
    ensures FirstPrinted(front + [last]) ==
            FirstPrinted(front) + if last.Unusable? || PrintsLike(front, last) then [] else [last]
  {
    hide PrintsLike;
    var all := front + [last];
    assert all[..|all| - 1] == front && all[|all| - 1] == last;
  }

  lemma FirstSomewhereIs(all: seq<Net>, n: Net)
    ensures FirstSomewhere(all, n) <==> exists i: nat :: FirstAt(all, n, i)
  {
    hide FirstAt;
  }

  lemma SameReach(out: seq<Net>, all: seq<Net>)
    requires ValidNets(out) && ValidNets(all)
    requires forall n :: n in out ==> n in all
    requires forall n :: n in all && !n.Unusable? ==> PrintsLike(out, n)
    ensures forall a :: InNets(out, a) <==> InNets(all, a)
  {
    forall a: Addr | InNets(all, a)
      ensures InNets(out, a)
    {
      var n :| n in all && Contains(n, a);
      var m :| m in out && Printed(m) == Printed(n);
      assert Contains(m, a);
    }
  }

  // ---------- Classification ----------

  predicate HasSuffix(s: bytes, suffix: bytes)
  {
    |suffix| <= |s| && s[|s| - |suffix|..] == suffix
  }

  predicate HostMatchesWildcard(fqdn: bytes, suffix: bytes)
  {
    var tail := [DOT] + suffix;
    HasSuffix(fqdn, tail) &&
    var prefix := fqdn[..|fqdn| - |tail|];
    prefix != [] && DOT !in prefix
  }

  /** A wildcard stands for exactly one host. */
  lemma WildcardIsOneLabel(fqdn: bytes, suffix: bytes)
    ensures HostMatchesWildcard(fqdn, suffix) <==>
            exists host: bytes :: host != [] && 0x2E !in host && fqdn == host + [0x2E] + suffix
  {
    var tail := [DOT] + suffix;
    if HostMatchesWildcard(fqdn, suffix) {
      var host := fqdn[..|fqdn| - |tail|];
      assert fqdn == host + tail;
      assert host + tail == host + [DOT] + suffix;
    }
    if host: bytes :| host != [] && DOT !in host && fqdn == host + [DOT] + suffix {
      OneLabelMatches(host, suffix);
    }
  }

  lemma OneLabelMatches(host: bytes, suffix: bytes)
    requires host != [] && DOT !in host
    ensures HostMatchesWildcard(host + [DOT] + suffix, suffix)
  {
    var fqdn, tail := host + [DOT] + suffix, [DOT] + suffix;
    assert fqdn == host + tail;
    assert fqdn[|host|..] == tail && fqdn[..|host|] == host;
  }

  /** `ip` is None for an address that is not IPv4. */
  ghost function Classify(fold: Fold, p: Option<Policy>, fqdn: bytes, ip: Option<Addr>): (c: Class)
    requires p.Some? ==> ValidNets(p.value.nets) && ValidNets(p.value.ignored)
  {
    if p.None? then Monitor else
    var pol := p.value;
    if ip.Some? && pol.enabled && (ip.value in pol.ips || InNets(pol.nets, ip.value)) then Allowed
    else if ip.Some? && InNets(pol.ignored, ip.value) then Ignored
    else if !pol.enabled then Monitor
    else
      var host := ToLower(fold, TrimSpace(fqdn));
      if host == [] then Unknown
      else if host in pol.exactHosts || exists s :: s in pol.wildSuffixes && HostMatchesWildcard(host, s) then Allowed
      else NotListed
  }

  /** The classifier as the source scans: the address lists first, then the name. */
  method ClassifyEgress(fold: Fold, p: Option<Policy>, fqdn: bytes, ip: Option<Addr>) returns (c: Class)
    requires p.Some? ==> ValidNets(p.value.nets) && ValidNets(p.value.ignored)
    ensures c == Classify(fold, p, fqdn, ip)
  {
    hide ToLower, TrimSpace, HostMatchesWildcard;
    if p.None? {
      return Monitor;
    }
    var pol := p.value;
    if ip.Some? && pol.enabled {
      if ip.value in pol.ips {
        return Allowed;
      }
      var inNets := NetsContain(pol.nets, ip.value);
      if inNets {
        return Allowed;
      }
    }
    if ip.Some? {
      var inIgnored := NetsContain(pol.ignored, ip.value);
      if inIgnored {
        return Ignored;
      }
    }
    if !pol.enabled {
      return Monitor;
    }
    var host := ToLower(fold, TrimSpace(fqdn));
    if |host| == 0 {
      return Unknown;
    }
    if host in pol.exactHosts {
      return Allowed;
    }
    for i := 0 to |pol.wildSuffixes|
      invariant forall j :: 0 <= j < i ==> !HostMatchesWildcard(host, pol.wildSuffixes[j])
    {
      if HostMatchesWildcard(host, pol.wildSuffixes[i]) {
        assert pol.wildSuffixes[i] in pol.wildSuffixes;
        return Allowed;
      }
    }
    return NotListed;
  }

  ghost predicate AddressAllowed(pol: Policy, a: Addr)
    requires ValidNets(pol.nets)
  {
    pol.enabled && (a in pol.ips || exists n :: n in pol.nets && Contains(n, a))
  }

  ghost predicate AddressIgnored(pol: Policy, a: Addr)
    requires ValidNets(pol.ignored)
  {
    exists n :: n in pol.ignored && Contains(n, a)
  }

  /** An allowed address is allowed even when it is also ignored, and neither looks at the name. */
  lemma ClassifyByAddress(fold: Fold, pol: Policy, fqdn: bytes, a: Addr)
    requires ValidNets(pol.nets) && ValidNets(pol.ignored)
    ensures AddressAllowed(pol, a) ==> Classify(fold, Some(pol), fqdn, Some(a)) == Allowed
    ensures Classify(fold, Some(pol), fqdn, Some(a)) == Ignored <==> AddressIgnored(pol, a) && !AddressAllowed(pol, a)
    ensures Classify(fold, Some(pol), fqdn, None) != Ignored
  {
    hide ToLower, TrimSpace, HostMatchesWildcard;
  }

  /** Without an enabled policy, an address that is not ignored is only watched. */
  lemma ClassifyMonitors(fold: Fold, p: Option<Policy>, fqdn: bytes, ip: Option<Addr>)
    requires p.Some? ==> ValidNets(p.value.nets) && ValidNets(p.value.ignored)
    ensures Classify(fold, p, fqdn, ip) == Monitor <==>
            p.None? || (!p.value.enabled && (ip.None? || !AddressIgnored(p.value, ip.value)))
  {
    hide ToLower, TrimSpace, HostMatchesWildcard;
  }

  /** `h` is `name` with its ASCII letters in lower case. */
  ghost predicate Lowered(name: bytes, h: bytes)
  {
    |h| == |name| && forall i :: 0 <= i < |name| ==> h[i] == if 0x41 <= name[i] <= 0x5A then name[i] + 0x20 else name[i]
  }

  /** The name is an exact host, or one dot-free label in front of a listed suffix. */
  ghost predicate Listed(pol: Policy, h: bytes)
  {
    || h in pol.exactHosts
    || exists s, part: bytes :: s in pol.wildSuffixes && part != [] && 0x2E !in part && h == part + [0x2E] + s
  }

  /**
   * The verdict on a name, in any letter case and with white space or none around it, for an address that
   * is in no list or not IPv4.
   */
  lemma ClassifyByName(fold: Fold, pol: Policy, lead: bytes, name: bytes, tail: bytes, h: bytes, ip: Option<Addr>)
    requires ValidNets(pol.nets) && ValidNets(pol.ignored) && pol.enabled
    requires ip.Some? ==> !AddressAllowed(pol, ip.value) && !AddressIgnored(pol, ip.value)
    requires Blank(lead) && Blank(tail) && IsAscii(name) && (name == [] || Bare(name)) && Lowered(name, h)
    ensures Classify(fold, Some(pol), lead + name + tail, ip) ==
            if h == [] then Unknown else if Listed(pol, h) then Allowed else NotListed
  {
    hide ToLower, TrimSpace, HostMatchesWildcard;
    TrimmedName(lead, name, tail);
    ToLowerAscii(fold, name);
    assert ToLower(fold, name) == h;
    ListedIs(pol, h);
  }

  lemma TrimmedName(lead: bytes, name: bytes, tail: bytes)
    requires Blank(lead) && Blank(tail) && (name == [] || Bare(name))
    ensures TrimSpace(lead + name + tail) == name
  {
    hide TrimLeft, TrimRight;
    if name == [] {
      BlankInFront(lead + tail, []);
      assert lead + name + tail == lead + tail + [];
      TrimNothing();
      TrimRightUnfold([]);
    } else {
      TrimPadded(lead, name, tail);
    }
  }

  lemma ListedIs(pol: Policy, h: bytes)
    ensures Listed(pol, h) <==> h in pol.exactHosts || exists s :: s in pol.wildSuffixes && HostMatchesWildcard(h, s)
  {
    hide HostMatchesWildcard;
    forall s: bytes
      ensures HostMatchesWildcard(h, s) <==>
              exists part: bytes :: part != [] && 0x2E !in part && h == part + [0x2E] + s
    {
      WildcardIsOneLabel(h, s);
    }
  }
}
