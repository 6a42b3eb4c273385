/**
 * What the Go text helpers do: which bytes are white space, what trimming leaves, and what lower-casing
 * does to ASCII.
 */
module Text {
  import opened Bytes

  // ---------- White space ----------

  /** The code points that `unicode.IsSpace` accepts. */
  ghost predicate IsSpaceRune(cp: nat)
  {
    || 0x09 <= cp <= 0x0D || cp == 0x20 || cp == 0x85 || cp == 0xA0 || cp == 0x1680 || 0x2000 <= cp <= 0x200A
    || cp == 0x2028 || cp == 0x2029 || cp == 0x202F || cp == 0x205F || cp == 0x3000
  }

  /** The UTF-8 encoding of a code point of up to 16 bits. */
  ghost function Utf8(cp: nat): (b: bytes)
    requires cp < 0x1_0000
  {
    if cp < 0x80 then [cp]
    else if cp < 0x800 then [0xC0 + cp / 64, 0x80 + cp % 64]
    else [0xE0 + cp / 4096, 0x80 + cp / 64 % 64, 0x80 + cp % 64]
  }

  /** What counts as white space at the front of a string: the encodings of those code points, no other. */
  lemma SpaceAtFront(s: bytes)
    ensures SpaceWidth(s) > 0 ==>
            exists cp: nat :: cp < 0x1_0000 && IsSpaceRune(cp) && Utf8(cp) <= s && |Utf8(cp)| == SpaceWidth(s)
    ensures forall cp: nat :: cp < 0x1_0000 && IsSpaceRune(cp) && Utf8(cp) <= s ==> SpaceWidth(s) == |Utf8(cp)|
  {
    if SpaceWidth(s) > 0 {
      var cp := DecodeSpace(s);
    }
    forall cp: nat | cp < 0x1_0000 && IsSpaceRune(cp) && Utf8(cp) <= s
      ensures SpaceWidth(s) == |Utf8(cp)|
    {
      EncodedSpace(s, cp);
    }
  }

  lemma DecodeSpace(s: bytes) returns (cp: nat)
    requires SpaceWidth(s) > 0
    ensures cp < 0x1_0000 && IsSpaceRune(cp) && Utf8(cp) <= s && |Utf8(cp)| == SpaceWidth(s)
  {
    if SpaceWidth(s) == 1 {
      cp := s[0];
      assert s[..1] == [s[0]];
    } else if SpaceWidth(s) == 2 {
      cp := s[1];
      assert s[..2] == [s[0], s[1]];
    } else {
      cp := 4096 * (s[0] as int - 0xE0) + 64 * (s[1] as int - 0x80) + (s[2] as int - 0x80);
      assert s[..3] == [s[0], s[1], s[2]];
    }
  }

  lemma EncodedSpace(s: bytes, cp: nat)
    requires cp < 0x1_0000 && IsSpaceRune(cp) && Utf8(cp) <= s
    ensures SpaceWidth(s) == |Utf8(cp)|
  {
    var b := Utf8(cp);
    assert forall i :: 0 <= i < |b| ==> s[i] == b[i];
  }

  /** A run of white-space characters. */
  ghost predicate Spaces(cs: seq<bytes>)
  {
    forall c :: c in cs ==> 0 < |c| == SpaceWidth(c)
  }

  ghost function Flatten(cs: seq<bytes>): (b: bytes)
  {
    if cs == [] then [] else cs[0] + Flatten(cs[1..])
  }

  lemma {:induction false} FlattenConcat(a: seq<bytes>, b: seq<bytes>)
    ensures Flatten(a + b) == Flatten(a) + Flatten(b)
  {
    if a == [] {
      assert a + b == b;
    } else {
      FlattenConcat(a[1..], b);
      assert (a + b)[1..] == a[1..] + b && (a + b)[0] == a[0];
      assert a[0] + (Flatten(a[1..]) + Flatten(b)) == (a[0] + Flatten(a[1..])) + Flatten(b);
    }
  }

  lemma SpaceAlone(s: bytes)
    requires SpaceWidth(s) > 0
    ensures SpaceWidth(s[..SpaceWidth(s)]) == SpaceWidth(s)
  {
  }

  lemma SpaceKept(s: bytes, e: bytes)
    requires SpaceWidth(s) > 0
    ensures SpaceWidth(s + e) == SpaceWidth(s)
  {
  }

  // ---------- Trimming ----------

  lemma {:induction false} LeadOf(s: bytes) returns (lead: seq<bytes>)
    ensures Spaces(lead) && s == Flatten(lead) + TrimLeft(s)
  {
    hide SpaceWidth, TrimLeft, Spaces, Flatten;
    lead := [];
    NoSpaces();
    TrimLeftUnfold(s);
    if SpaceWidth(s) > 0 {
      var w := SpaceWidth(s);
      var rest := LeadOf(s[w..]);
      SpaceAlone(s);
      lead := [s[..w]] + rest;
      SpaceInFront(s[..w], rest);
      assert s == s[..w] + s[w..];
    }
  }

  lemma TrimLeftUnfold(s: bytes)
    ensures TrimLeft(s) == if SpaceWidth(s) == 0 then s else TrimLeft(s[SpaceWidth(s)..])
  {
  }

  lemma SpaceInFront(c: bytes, cs: seq<bytes>)
    requires Spaces(cs) && 0 < |c| == SpaceWidth(c)
    ensures Spaces([c] + cs) && Flatten([c] + cs) == c + Flatten(cs)
  {
    hide SpaceWidth;
    assert ([c] + cs)[1..] == cs;
  }

  lemma {:induction false} TailOf(s: bytes) returns (tail: seq<bytes>)
    ensures Spaces(tail) && s == TrimRight(s) + Flatten(tail)
  {
    hide SpaceWidth, SpaceTail, TrimRight, Spaces, Flatten;
    tail := [];
    NoSpaces();
    TrimRightUnfold(s);
    if SpaceTail(s) > 0 {
      var n := |s| - SpaceTail(s);
      var front := TailOf(s[..n]);
      OneSpaceMore(front, s[n..]);
      tail := front + [s[n..]];
      assert s == s[..n] + s[n..];
    }
  }

  lemma NoSpaces()
    ensures Spaces([]) && Flatten([]) == []
  {
  }

  lemma OneSpaceMore(cs: seq<bytes>, c: bytes)
    requires Spaces(cs) && 0 < |c| == SpaceWidth(c)
    ensures Spaces(cs + [c]) && Flatten(cs + [c]) == Flatten(cs) + c
  {
    FlattenConcat(cs, [c]);
    assert Flatten([c]) == c;
  }

  /** Trimming takes white space off both ends, nothing else, and leaves none there. */
  lemma TrimSpaceIs(s: bytes) returns (lead: seq<bytes>, tail: seq<bytes>)
    ensures Spaces(lead) && Spaces(tail) && s == Flatten(lead) + TrimSpace(s) + Flatten(tail)
    ensures TrimSpace(s) == [] || Bare(TrimSpace(s))
  {
    hide TrimLeft, TrimRight, Spaces, Flatten;
    lead := LeadOf(s);
    tail := TailOf(TrimLeft(s));
    assert s == Flatten(lead) + (TrimSpace(s) + Flatten(tail));
    TrimmedIsBare(s);
  }

  lemma TrimmedIsBare(s: bytes)
    ensures TrimSpace(s) == [] || Bare(TrimSpace(s))
  {
    hide TrimLeft, TrimRight, SpaceWidth, SpaceTail;
    var u := TrimLeft(s);
    var t := TrimRight(u);
    LeftTrimmed(s);
    TrimRightPrefix(u);
    assert u == t + u[|t|..];
    if SpaceWidth(t) > 0 {
      SpaceKept(t, u[|t|..]);
    }
    TrimRightTwice(u);
    TrimRightUnfold(t);
    TrimRightShorter(t);
  }

  lemma TrimRightShorter(t: bytes)
    ensures SpaceTail(t) > 0 ==> TrimRight(t) != t
  {
    hide SpaceTail, TrimRight;
    TrimRightUnfold(t);
    if SpaceTail(t) > 0 {
      TrimRightPrefix(t[..|t| - SpaceTail(t)]);
    }
  }

  lemma {:induction false} SpacesTrimAway(cs: seq<bytes>, t: bytes)
    requires Spaces(cs)
    ensures TrimLeft(Flatten(cs) + t) == TrimLeft(t)
  {
    hide SpaceWidth, TrimLeft, Flatten;
    if cs == [] {
      NoSpaces();
      assert Flatten(cs) + t == t;
    } else {
      var rest := Flatten(cs[1..]) + t;
      SpacesTrimAway(cs[1..], t);
      FlattenFirst(cs);
      assert Flatten(cs) + t == cs[0] + rest;
      OneSpaceLess(cs[0], rest);
    }
  }

  lemma FlattenFirst(cs: seq<bytes>)
    requires cs != []
    ensures Flatten(cs) == cs[0] + Flatten(cs[1..])
  {
  }

  lemma OneSpaceLess(c: bytes, rest: bytes)
    requires 0 < |c| == SpaceWidth(c)
    ensures TrimLeft(c + rest) == TrimLeft(rest)
  {
    hide SpaceWidth;
    SpaceKept(c, rest);
    assert (c + rest)[|c|..] == rest;
  }

  /** Nothing but white space. */
  ghost predicate AllSpace(s: bytes)
  {
    exists cs :: Spaces(cs) && s == Flatten(cs)
  }

  lemma AllSpaceIs(s: bytes)
    ensures AllSpace(s) <==> TrimSpace(s) == []
  {
    hide TrimLeft, Spaces, Flatten;
    if cs :| Spaces(cs) && s == Flatten(cs) {
      SpacesTrimAway(cs, []);
      TrimNothing();
      assert s + [] == s;
    }
    if TrimSpace(s) == [] {
      var lead, tail := TrimSpaceIs(s);
      FlattenConcat(lead, tail);
      SpacesConcat(lead, tail);
      assert Flatten(lead) + [] + Flatten(tail) == Flatten(lead + tail);
    }
  }

  lemma SpacesConcat(a: seq<bytes>, b: seq<bytes>)
    requires Spaces(a) && Spaces(b)
    ensures Spaces(a + b)
  {
  }

  /** On ASCII text, trimming cuts out the part between the white space at the ends. */
  lemma AsciiTrim(s: bytes) returns (i: nat, j: nat)
    requires IsAscii(s)
    ensures i <= j <= |s| && TrimSpace(s) == s[i..j] && Blank(s[..i]) && Blank(s[j..])
  {
    hide TrimLeft, TrimRight;
    i := AsciiLead(s);
    assert IsAscii(s[i..]) by {
      assert forall c :: c in s[i..] ==> c in s;
    }
    var n := AsciiTail(s[i..]);
    j := i + n;
    assert s[i..][..n] == s[i..j] && s[i..][n..] == s[j..];
  }

  lemma {:induction false} AsciiLead(s: bytes) returns (i: nat)
    requires IsAscii(s)
    ensures i <= |s| && TrimLeft(s) == s[i..] && Blank(s[..i])
  {
    hide TrimLeft, SpaceWidth, IsAscii;
    i := 0;
    AsciiTrimLeft(s);
    if SpaceWidth(s) > 0 {
      var n := AsciiLead(s[1..]);
      i := n + 1;
      assert s[..i] == [s[0]] + s[1..][..n] && s[1..][n..] == s[i..];
    }
  }

  lemma AsciiTrimLeft(s: bytes)
    requires IsAscii(s)
    ensures SpaceWidth(s) == 0 ==> TrimLeft(s) == s
    ensures SpaceWidth(s) > 0 ==> IsAscii(s[1..]) && Blank(s[..1]) && TrimLeft(s) == TrimLeft(s[1..])
  {
    hide SpaceWidth, TrimLeft;
    TrimLeftUnfold(s);
    if SpaceWidth(s) > 0 {
      AsciiSpace(s);
      assert forall c :: c in s[1..] ==> c in s;
    }
  }

  lemma AsciiSpace(s: bytes)
    requires IsAscii(s) && SpaceWidth(s) > 0
    ensures SpaceWidth(s) == 1 && Blank(s[..1])
  {
    assert s[0] in s;
  }

  lemma {:induction false} AsciiTail(s: bytes) returns (n: nat)
    requires IsAscii(s)
    ensures n <= |s| && TrimRight(s) == s[..n] && Blank(s[n..])
  {
    hide TrimRight, SpaceTail;
    n := |s|;
    TrimRightUnfold(s);
    if SpaceTail(s) > 0 {
      var m := |s| - SpaceTail(s);
      AsciiSpaceTail(s);
      assert forall c :: c in s[..m] ==> c in s;
      n := AsciiTail(s[..m]);
      assert s[..m][..n] == s[..n] && s[n..] == s[..m][n..] + s[m..];
    }
  }

  lemma AsciiSpaceTail(s: bytes)
    requires IsAscii(s) && SpaceTail(s) > 0
    ensures Blank(s[|s| - SpaceTail(s)..])
  {
    hide SpaceTail;
    var t := s[|s| - SpaceTail(s)..];
    assert forall k :: 0 <= k < |t| ==> t[k] in s;
  }

  // ---------- Lower case ----------

  /** ASCII letters in upper case become their lower-case forms; every other ASCII byte stays. */
  lemma ToLowerAscii(fold: Fold, s: bytes)
    requires IsAscii(s)
    ensures |ToLower(fold, s)| == |s|
    ensures forall i :: 0 <= i < |s| ==>
              ToLower(fold, s)[i] == if 0x41 <= s[i] <= 0x5A then s[i] + 0x20 else s[i]
  {
  }

  // ---------- Text with white space around it ----------

  lemma LeftTrimmed(s: bytes)
    ensures SpaceWidth(TrimLeft(s)) == 0
  {
  }

  lemma TrimNothing()
    ensures TrimLeft([]) == []
  {
  }

  lemma TrimLeftDone(s: bytes)
    requires SpaceWidth(s) == 0
    ensures TrimLeft(s) == s
  {
  }

  lemma TrimRightUnfold(s: bytes)
    ensures TrimRight(s) == if SpaceTail(s) == 0 then s else TrimRight(s[..|s| - SpaceTail(s)])
  {
    hide SpaceTail;
  }

  lemma {:induction false} TrimRightPrefix(s: bytes)
    ensures TrimRight(s) <= s
  {
    hide SpaceTail, TrimRight;
    TrimRightUnfold(s);
    if SpaceTail(s) > 0 {
      TrimRightPrefix(s[..|s| - SpaceTail(s)]);
    }
  }

  lemma SpaceIsInvisible(s: bytes, w: nat)
    requires 0 < w == SpaceWidth(s)
    ensures forall j :: 0 <= j < w ==> !(0x20 < s[j] < 0x7F)
  {
  }

  /** No byte of a white-space character is visible ASCII. */
  lemma SpaceTailIsInvisible(s: bytes)
    ensures forall k :: |s| - SpaceTail(s) <= k < |s| ==> !(0x20 < s[k] < 0x7F)
  {
    hide SpaceTail, SpaceWidth;
    var n, w := |s| - SpaceTail(s), SpaceTail(s);
    if w > 0 {
      SpaceIsInvisible(s[n..], w);
      forall k | n <= k < |s|
        ensures !(0x20 < s[k] < 0x7F)
      {
        assert s[k] == s[n..][k - n];
      }
    }
  }

  /** Trimming never passes a visible byte. */
  lemma {:induction false} TrimRightKeeps(s: bytes, k: nat)
    requires k < |s| && 0x20 < s[k] < 0x7F
    ensures |TrimRight(s)| > k
    decreases |s|
  {
    hide SpaceTail, TrimRight;
    TrimRightUnfold(s);
    SpaceTailIsInvisible(s);
    if SpaceTail(s) > 0 {
      TrimRightKeeps(s[..|s| - SpaceTail(s)], k);
    }
  }

  lemma {:induction false} TrimRightTwice(s: bytes)
    ensures TrimRight(TrimRight(s)) == TrimRight(s)
  {
    hide SpaceTail, TrimRight;
    TrimRightUnfold(s);
    if SpaceTail(s) > 0 {
      TrimRightTwice(s[..|s| - SpaceTail(s)]);
    }
  }

  lemma TrimRightOne(s: bytes, c: byte)
    requires SpaceWidth([c]) == 1
    ensures TrimRight(s + [c]) == TrimRight(s)
  {
    hide SpaceWidth, TrimRight;
    var t := s + [c];
    assert t[|t| - 1..] == [c] && t[..|t| - 1] == s;
    TrimRightUnfold(t);
  }

  /** Some text without a white-space character at either end. */
  ghost predicate Bare(s: bytes)
  {
    s != [] && SpaceWidth(s) == 0 && SpaceTail(s) == 0
  }

  lemma BareIsTrimmed(s: bytes)
    requires Bare(s)
    ensures TrimSpace(s) == s
  {
    hide TrimLeft, TrimRight, SpaceTail, SpaceWidth;
    TrimLeftDone(s);
    TrimRightUnfold(s);
  }

  /** ASCII white space, any amount of it. */
  ghost predicate Blank(s: bytes)
  {
    forall i :: 0 <= i < |s| ==> s[i] == 0x20 || 0x09 <= s[i] <= 0x0D
  }

  lemma {:induction false} BlankInFront(pad: bytes, s: bytes)
    requires Blank(pad)
    ensures TrimLeft(pad + s) == TrimLeft(s)
  {
    if pad == [] {
      assert pad + s == s;
    } else {
      BlankInFront(pad[1..], s);
      assert (pad + s)[1..] == pad[1..] + s;
    }
  }

  lemma {:induction false} BlankBehind(s: bytes, tail: bytes)
    requires Blank(tail)
    ensures TrimRight(s + tail) == TrimRight(s)
    decreases |tail|
  {
    hide TrimRight;
    if tail == [] {
      assert s + tail == s;
    } else {
      var n := |tail| - 1;
      BlankBehind(s, tail[..n]);
      TrimRightOne(s + tail[..n], tail[n]);
      assert s + tail == s + tail[..n] + [tail[n]];
    }
  }

  lemma NoSpaceBeforeBlank(s: bytes, tail: bytes)
    requires s != [] && SpaceWidth(s) == 0 && Blank(tail)
    ensures SpaceWidth(s + tail) == 0
  {
  }

  lemma TrimPadded(pad: bytes, s: bytes, tail: bytes)
    requires Blank(pad) && Bare(s) && Blank(tail)
    ensures TrimSpace(pad + s + tail) == s
  {
    hide TrimLeft, TrimRight, Blank, SpaceWidth, SpaceTail;
    assert pad + s + tail == pad + (s + tail);
    BlankInFront(pad, s + tail);
    NoSpaceBeforeBlank(s, tail);
    TrimLeftDone(s + tail);
    BlankBehind(s, tail);
    BareIsTrimmed(s);
    TrimLeftDone(s);
  }

  /** Visible ASCII, and at least one byte of it. */
  ghost predicate Plain(s: bytes)
  {
    s != [] && forall i :: 0 <= i < |s| ==> 0x20 < s[i] < 0x7F
  }

  lemma PlainIsNoSpace(s: bytes, k: nat)
    requires Plain(s) && k < |s|
    ensures SpaceWidth(s[k..]) == 0
  {
  }

  lemma TrimPlain(s: bytes)
    requires Plain(s)
    ensures Bare(s) && TrimLeft(s) == s && TrimSpace(s) == s
  {
    hide TrimLeft, SpaceTail;
    PlainIsNoSpace(s, 0);
    assert s[0..] == s;
    TrimLeftDone(s);
    SpaceTailIsInvisible(s);
    BareIsTrimmed(s);
  }
}
