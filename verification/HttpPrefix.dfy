/**
 * Method, path and host from the first bytes of a cleartext HTTP request. The capture may stop
 * anywhere, so a line without its terminator is not trusted to be whole, except the request line.
 */
module HttpPrefix {
  import opened Bytes
  import opened Text

  const SLASH: byte := 0x2F
  const COLON: byte := 0x3A
  const OPEN: byte := 0x5B
  const CLOSE: byte := 0x5D
  const UNKNOWN: bytes := [0x3F]
  const HOST: bytes := [0x68, 0x6F, 0x73, 0x74]

  datatype Parsed = Rejected | Parsed(verb: bytes, host: bytes, path: bytes)

  // ---------- Searching ----------

  function IndexByte(b: bytes, c: byte): (r: Option<nat>)
    ensures r.None? ==> c !in b
    ensures r.Some? ==> r.value < |b| && b[r.value] == c && c !in b[..r.value]
  {
    if b == [] then None
    else if b[0] == c then Some(0)
    else match IndexByte(b[1..], c)
         case None => None
         case Some(i) => assert b[..i + 1] == [b[0]] + b[1..][..i]; Some(i + 1)
  }

  predicate CRLFAt(b: bytes, i: int)
  {
    0 <= i && i + 1 < |b| && b[i] == CR && b[i + 1] == LF
  }

  function IndexCRLF(b: bytes): (r: Option<nat>)
    ensures r.None? ==> forall i :: !CRLFAt(b, i)
    ensures r.Some? ==> CRLFAt(b, r.value) && forall i :: 0 <= i < r.value ==> !CRLFAt(b, i)
  {
    if |b| < 2 then None
    else if b[0] == CR && b[1] == LF then Some(0)
    else
      assert forall i :: 1 <= i ==> CRLFAt(b, i) == CRLFAt(b[1..], i - 1);
      match IndexCRLF(b[1..])
      case None => None
      case Some(i) => Some(i + 1)
  }

  /** The end of the request line: the first CRLF, else the first LF, else what there is, up to 256 bytes. */
  function LineEnd(b: bytes): (n: nat)
    ensures n <= |b|
  {
    match IndexCRLF(b)
    case Some(i) => i
    case None =>
      match IndexByte(b, LF)
      case Some(i) => i
      case None => Min(|b|, 256)
  }

  function TrimBlank(b: bytes): (r: bytes)
    ensures |r| <= |b|
  {
    if b != [] && (b[0] == 0x20 || b[0] == 0x09 || b[0] == CR || b[0] == LF) then TrimBlank(b[1..]) else b
  }

  function SkipEOL(b: bytes): (r: bytes)
    ensures |r| <= |b|
  {
    var once := if CRLFAt(b, 0) then b[2..] else b;
    if once != [] && once[0] == LF then once[1..] else once
  }

  /** One line and what follows its terminator; None when no terminator is in sight. */
  function TakeLine(b: bytes): (r: Option<(bytes, bytes)>)
    ensures r.Some? ==> |r.value.1| < |b|
  {
    match IndexCRLF(b)
    case Some(i) => Some((b[..i], b[i + 2..]))
    case None =>
      match IndexByte(b, LF)
      case Some(i) => Some((b[..i], b[i + 1..]))
      case None => None
  }

  // ---------- Words ----------

  /** The length of the word at the front: up to the first white space. */
  function WordLength(s: bytes): (n: nat)
    ensures n <= |s|
  {
    if s == [] || SpaceWidth(s) > 0 then 0 else 1 + WordLength(s[1..])
  }

  /** `bytes.Fields`. */
  function Fields(s: bytes): (r: seq<bytes>)
    decreases |s|
  {
    var u := TrimLeft(s);
    if u == [] then []
    else
      LeftTrimmed(s);
      [u[..WordLength(u)]] + Fields(u[WordLength(u)..])
  }

  // ---------- Headers ----------

  function NormalizeHostHeader(text: bytes): (r: bytes)
  {
    var val := TrimSpace(text);
    if val == [] then UNKNOWN
    else if val[0] == OPEN then
      match IndexByte(val, CLOSE)
      case Some(end) => if end > 1 then val[1..end] else UNKNOWN
      case None => UNKNOWN
    else
      match IndexByte(val, COLON)
      case Some(i) => val[..i]
      case None => val
  }

  /** The host that a header line names, if it is a Host line with a value. */
  function HostIn(fold: Fold, line: bytes): (r: Option<bytes>)
  {
    match IndexByte(line, COLON)
    case None => None
    case Some(colon) =>
      if colon == 0 then None else
      var name := TrimSpace(ToLower(fold, line[..colon]));
      var val := TrimSpace(line[colon + 1..]);
      if name == HOST && val != [] then Some(NormalizeHostHeader(val)) else None
  }

  function FindHost(fold: Fold, rest: bytes): (r: Option<bytes>)
    decreases |rest|
  {
    match TakeLine(rest)
    case None => None
    case Some((line, more)) =>
      match HostIn(fold, line)
      case Some(h) => Some(h)
      case None => FindHost(fold, more)
  }

  function Shown(h: Option<bytes>): (r: bytes)
  {
    if h.None? || h.value == [] then UNKNOWN else h.value
  }

  /** The request, once leading blanks are gone. */
  function ParseTrimmed(fold: Fold, q: bytes): (r: Parsed)
  {
    var n := LineEnd(q);
    var parts := Fields(q[..n]);
    if |q| < 8 || |parts| < 3 || parts[1] == [] || parts[1][0] != SLASH then Rejected
    else Parsed(parts[0], Shown(FindHost(fold, SkipEOL(q[n..]))), parts[1])
  }

  function Parse(fold: Fold, raw: bytes): (r: Parsed)
  {
    ParseTrimmed(fold, TrimBlank(raw))
  }

  // ---------- The parser as the source runs it ----------

  method ParseHTTPRequestPrefix(fold: Fold, input: bytes) returns (verb: bytes, host: bytes, path: bytes, ok: bool)
    ensures Parse(fold, input) == if ok then Parsed(verb, host, path) else Rejected
  {
    hide Fields, FindHost, HostIn, SkipEOL;
    verb, host, path, ok := [], [], [], false;
    var raw := TrimBlank(input);
    if |raw| < 8 {
      return;
    }
    var lineEnd := LineEnd(raw);
    var parts := Fields(raw[..lineEnd]);
    if |parts| < 3 || |parts[1]| == 0 || parts[1][0] != SLASH {
      return;
    }
    verb, path := parts[0], parts[1];
    var rest := SkipEOL(raw[lineEnd..]);
    var found := ScanHeaders(fold, rest);
    host := if found == [] then UNKNOWN else found;
    ok := true;
  }

  /** The header loop; the empty result stands for no host. */
  method ScanHeaders(fold: Fold, headers: bytes) returns (host: bytes)
    ensures Shown(FindHost(fold, headers)) == if host == [] then UNKNOWN else host
  {
    hide TrimSpace, ToLower, IndexByte, IndexCRLF, NormalizeHostHeader;
    var rest := headers;
    host := [];
    while |rest| > 0
      invariant FindHost(fold, headers) == FindHost(fold, rest)
      decreases |rest|
    {
      var taken := TakeLine(rest);
      if taken.None? {
        return;
      }
      var line := taken.value.0;
      rest := taken.value.1;
      var colon := IndexByte(line, COLON);
      if |line| == 0 || colon.None? || colon.value == 0 {
        continue;
      }
      var name := TrimSpace(ToLower(fold, line[..colon.value]));
      var val := TrimSpace(line[colon.value + 1..]);
      if name == HOST && val != [] {
        host := NormalizeHostHeader(val);
        return;
      }
    }
  }

  // ---------- White space under extension ----------

  /** The start of a white-space character that is still missing bytes; or nothing at all. */
  ghost predicate PartialSpace(s: bytes)
  {
    || s == [] || s == [0xC2] || s == [0xE1] || s == [0xE1, 0x9A] || s == [0xE2] || s == [0xE2, 0x80]
    || s == [0xE2, 0x81] || s == [0xE3] || s == [0xE3, 0x80]
  }

  /** More bytes turn a non-space into a space only by completing a partial one. */
  lemma SpaceWidthStable(s: bytes, e: bytes)
    ensures SpaceWidth(s) > 0 || !PartialSpace(s) ==> SpaceWidth(s + e) == SpaceWidth(s)
  {
    if |s| == 1 {
      assert s == [s[0]];
    } else if |s| == 2 {
      assert s == [s[0], s[1]];
    }
  }

  lemma NoSpaceInPartial(s: bytes, k: nat)
    requires PartialSpace(s) && k <= |s|
    ensures SpaceWidth(s[k..]) == 0
  {
    hide SpaceWidth;
    assert |s| <= 2 && (forall i :: 0 <= i < |s| ==> s[i] >= 0x80) && (|s| == 2 ==> s[0] != 0xC2 && s[1] != 0xC2);
    hide PartialSpace;
    TooShortForSpace(s[k..]);
  }

  lemma TooShortForSpace(t: bytes)
    requires |t| <= 2 && (forall i :: 0 <= i < |t| ==> t[i] >= 0x80) && (|t| == 2 ==> t[0] != 0xC2)
    ensures SpaceWidth(t) == 0
  {
  }

  /** A word with white space after it is not changed by what follows. */
  lemma {:induction false} WordStable(s: bytes, e: bytes)
    requires SpaceWidth(s[WordLength(s)..]) > 0
    ensures WordLength(s + e) == WordLength(s)
  {
    hide SpaceWidth, PartialSpace;
    if SpaceWidth(s) > 0 {
      SpaceWidthStable(s, e);
    } else {
      assert s[WordLength(s)..] == s[1..][WordLength(s[1..])..];
      if PartialSpace(s) {
        NoSpaceInPartial(s, WordLength(s));
      }
      SpaceWidthStable(s, e);
      assert (s + e)[1..] == s[1..] + e;
      WordStable(s[1..], e);
    }
  }

  lemma {:induction false} TrimAppend(s: bytes, e: bytes)
    ensures TrimLeft(s + e) == TrimLeft(TrimLeft(s) + e)
  {
    if SpaceWidth(s) > 0 {
      SpaceWidthStable(s, e);
      assert (s + e)[SpaceWidth(s)..] == s[SpaceWidth(s)..] + e;
      TrimAppend(s[SpaceWidth(s)..], e);
    }
  }

  lemma TrimStable(s: bytes, e: bytes)
    requires !PartialSpace(TrimLeft(s))
    ensures TrimLeft(s + e) == TrimLeft(s) + e
  {
    TrimAppend(s, e);
    LeftTrimmed(s);
    SpaceWidthStable(TrimLeft(s), e);
  }

  lemma {:induction false} WordStops(s: bytes)
    ensures WordLength(s) == |s| || SpaceWidth(s[WordLength(s)..]) > 0
  {
    if s != [] && SpaceWidth(s) == 0 {
      WordStops(s[1..]);
      assert s[WordLength(s)..] == s[1..][WordLength(s[1..])..];
    }
  }

  // ---------- The first two words ----------

  ghost function Word(s: bytes): (r: bytes)
  {
    var u := TrimLeft(s);
    u[..WordLength(u)]
  }

  ghost function AfterWord(s: bytes): (r: bytes)
  {
    var u := TrimLeft(s);
    u[WordLength(u)..]
  }

  ghost function AfterTwo(s: bytes): (r: bytes)
  {
    AfterWord(AfterWord(s))
  }

  lemma FieldsByWord(s: bytes)
    ensures Fields(s) == if TrimLeft(s) == [] then [] else [Word(s)] + Fields(AfterWord(s))
    ensures TrimLeft(s) == [] ==> AfterWord(s) == []
    ensures AfterWord(s) == [] || SpaceWidth(AfterWord(s)) > 0
  {
    WordStops(TrimLeft(s));
  }

  lemma ThreeFields(s: bytes)
    ensures |Fields(s)| >= 3 <==> TrimLeft(AfterTwo(s)) != []
    ensures |Fields(s)| >= 3 ==> Fields(s)[0] == Word(s) && Fields(s)[1] == Word(AfterWord(s))
    ensures AfterTwo(s) == [] || SpaceWidth(AfterTwo(s)) > 0
  {
    hide Fields, Word, AfterWord;
    FieldsByWord(s);
    FieldsByWord(AfterWord(s));
    FieldsByWord(AfterTwo(s));
    FieldsByWord(AfterWord(AfterTwo(s)));
    TrimNothing();
  }

  lemma AfterWordStable(s: bytes, e: bytes)
    requires SpaceWidth(AfterWord(s)) > 0
    ensures Word(s + e) == Word(s) && AfterWord(s + e) == AfterWord(s) + e
  {
    var u := TrimLeft(s);
    if PartialSpace(u) {
      NoSpaceInPartial(u, WordLength(u));
    }
    TrimStable(s, e);
    WordStable(u, e);
    assert (u + e)[WordLength(u)..] == u[WordLength(u)..] + e;
    assert (u + e)[..WordLength(u)] == u[..WordLength(u)];
  }

  /** Once two words are followed by white space, more bytes only lengthen what comes after them. */
  lemma AfterTwoStable(s: bytes, e: bytes)
    requires SpaceWidth(AfterTwo(s)) > 0
    ensures Word(s + e) == Word(s) && Word(AfterWord(s + e)) == Word(AfterWord(s))
    ensures AfterTwo(s + e) == AfterTwo(s) + e
  {
    hide Word, AfterWord;
    NonEmptyAfterWord(AfterWord(s));
    FieldsByWord(s);
    AfterWordStable(s, e);
    AfterWordStable(AfterWord(s), e);
  }

  lemma NonEmptyAfterWord(s: bytes)
    ensures SpaceWidth(AfterWord(s)) > 0 ==> s != []
  {
  }

  // ---------- Lines under extension ----------

  /** Every LF follows a CR, as in a well-formed request. */
  ghost predicate Disciplined(s: bytes)
  {
    forall i :: 0 <= i < |s| && s[i] == LF ==> i > 0 && s[i - 1] == CR
  }

  lemma DisciplinedLines(b: bytes)
    requires Disciplined(b)
    ensures IndexCRLF(b).Some? <==> LF in b
    ensures IndexCRLF(b).Some? ==> Disciplined(b[IndexCRLF(b).value + 2..])
    ensures IndexCRLF(b).Some? ==> SkipEOL(b[IndexCRLF(b).value..]) == b[IndexCRLF(b).value + 2..]
  {
    hide IndexCRLF;
    if LF in b {
      var i :| 0 <= i < |b| && b[i] == LF;
      assert CRLFAt(b, i - 1);
    }
    if IndexCRLF(b).Some? {
      var i := IndexCRLF(b).value;
      assert b[i + 1] in b;
      assert CRLFAt(b[i..], 0);
      assert b[i..][2..] == b[i + 2..];
    }
  }

  lemma IndexStable(b: bytes, e: bytes)
    requires IndexCRLF(b).Some?
    ensures IndexCRLF(b + e) == IndexCRLF(b)
  {
    hide IndexCRLF;
    var i := IndexCRLF(b).value;
    assert CRLFAt(b + e, i);
    assert forall j :: 0 <= j < i ==> CRLFAt(b + e, j) == CRLFAt(b, j);
  }

  lemma NoneIndexStable(b: bytes, e: bytes)
    requires IndexCRLF(b).None? && IndexCRLF(b + e).Some?
    ensures IndexCRLF(b + e).value + 1 >= |b|
  {
    hide IndexCRLF;
    var i := IndexCRLF(b + e).value;
    assert i + 1 < |b| ==> CRLFAt(b, i);
  }

  lemma FirstLFStable(b: bytes, e: bytes)
    requires IndexByte(b, LF).Some?
    ensures IndexByte(b + e, LF) == IndexByte(b, LF)
  {
    hide IndexByte;
    var i := IndexByte(b, LF).value;
    assert (b + e)[..i] == b[..i];
    FirstIndex(b + e, i, LF);
  }

  lemma NoneBefore(b: bytes, i: nat, c: byte)
    requires i <= |b| && c !in b[..i]
    ensures forall k :: 0 <= k < i ==> b[k] != c
  {
    assert forall k :: 0 <= k < i ==> b[..i][k] == b[k];
  }

  /** A line ends at its first LF exactly when no CR LF is in sight, or that LF is part of one. */
  lemma LineEndsAtFirstLF(b: bytes)
    requires LF in b
    ensures TakeLine(b).Some? && IndexByte(b, LF).Some?
    ensures var i := IndexByte(b, LF).value;
            TakeLine(b).value.1 == b[i + 1..] <==> IndexCRLF(b).None? || (i > 0 && b[i - 1] == CR)
  {
    hide IndexByte, IndexCRLF;
    var i := IndexByte(b, LF).value;
    if IndexCRLF(b).Some? {
      var j := IndexCRLF(b).value;
      NoneBefore(b, i, LF);
      assert i > 0 && b[i - 1] == CR ==> CRLFAt(b, i - 1);
      assert |b[j + 2..]| == |b| - j - 2 && |b[i + 1..]| == |b| - i - 1;
    }
  }

  // ---------- Host lines under extension ----------

  lemma TrimSpaceTwice(s: bytes)
    ensures TrimSpace(TrimSpace(s)) == TrimSpace(s)
  {
    hide TrimRight, SpaceWidth, TrimLeft;
    var u := TrimLeft(s);
    LeftTrimmed(s);
    TrimRightPrefix(u);
    var t := TrimRight(u);
    SpaceWidthStable(t, u[|t|..]);
    assert t + u[|t|..] == u;
    TrimLeftDone(t);
    TrimRightTwice(u);
  }

  /** The value of a header line, behind its first colon. */
  ghost function Value(line: bytes): (v: bytes)
  {
    match IndexByte(line, COLON)
    case None => []
    case Some(c) => TrimSpace(line[c + 1..])
  }

  /** The value shows where its host ends: it is bracketed or has a port. */
  ghost predicate Delimited(line: bytes)
  {
    var v := Value(line);
    v != [] && (v[0] == OPEN || COLON in v)
  }

  lemma NotPartial(u: bytes, k: nat)
    requires k < |u| && u[k] < 0x80
    ensures !PartialSpace(u)
  {
  }

  /** More bytes behind a visible byte of a text leave it trimmed as far as that byte. */
  lemma TrimmedUpTo(x: bytes, more: bytes, k: nat)
    requires k < |TrimSpace(x)| && 0x20 < TrimSpace(x)[k] < 0x7F
    ensures |TrimSpace(x + more)| > k && TrimSpace(x + more)[..k + 1] == TrimSpace(x)[..k + 1]
  {
    hide TrimLeft, TrimRight, PartialSpace;
    var u := TrimLeft(x);
    TrimRightPrefix(u);
    NotPartial(u, k);
    TrimStable(x, more);
    TrimRightKeeps(u + more, k);
    TrimRightPrefix(u + more);
  }

  /** The host depends only on the value up to the byte that ends it. */
  lemma NormalizeUpTo(v: bytes, w: bytes, k: nat)
    requires TrimSpace(v) == v && TrimSpace(w) == w && k < |v| && k < |w| && v[..k + 1] == w[..k + 1]
    requires if v[0] == OPEN then k > 1 && v[k] == CLOSE && CLOSE !in v[..k] else v[k] == COLON && COLON !in v[..k]
    ensures NormalizeHostHeader(w) == NormalizeHostHeader(v)
  {
    hide TrimSpace, IndexByte;
    assert v[..k] == v[..k + 1][..k] == w[..k + 1][..k] == w[..k];
    assert v[k] == v[..k + 1][k] == w[k] && v[0] == v[..k + 1][0] == w[0];
    if v[0] == OPEN {
      FirstIndex(v, k, CLOSE);
      FirstIndex(w, k, CLOSE);
      assert v[1..k] == v[..k][1..] == w[1..k];
    } else {
      FirstIndex(v, k, COLON);
      FirstIndex(w, k, COLON);
    }
  }

  /** The byte that ends the host in a delimited value. */
  lemma DelimiterOf(v: bytes) returns (k: nat)
    requires TrimSpace(v) == v && v != [] && (v[0] == OPEN || COLON in v) && NormalizeHostHeader(v) != UNKNOWN
    ensures k < |v| && (v[k] == COLON || v[k] == CLOSE)
    ensures if v[0] == OPEN then k > 1 && v[k] == CLOSE && CLOSE !in v[..k] else v[k] == COLON && COLON !in v[..k]
  {
    hide TrimSpace, IndexByte;
    k := if v[0] == OPEN then IndexByte(v, CLOSE).value else IndexByte(v, COLON).value;
  }

  /** A Host line with a delimited value names the same host however it goes on. */
  lemma DelimitedStable(fold: Fold, line: bytes, more: bytes)
    requires Delimited(line) && HostIn(fold, line).Some? && HostIn(fold, line).value != UNKNOWN
    ensures HostIn(fold, line + more) == HostIn(fold, line)
  {
    hide TrimSpace, IndexByte, ToLower, NormalizeHostHeader;
    var c := IndexByte(line, COLON).value;
    var x := line[c + 1..];
    assert (line + more)[..c] == line[..c] && (line + more)[c + 1..] == x + more;
    FirstIndex(line + more, c, COLON);
    var v, w := TrimSpace(x), TrimSpace(x + more);
    TrimSpaceTwice(x);
    TrimSpaceTwice(x + more);
    var k := DelimiterOf(v);
    TrimmedUpTo(x, more, k);
    NormalizeUpTo(v, w, k);
  }

  const LETTER: byte := 0x7A

  lemma TrimBeforeLetter(x: bytes)
    requires TrimLeft(x) != []
    ensures TrimSpace(x + [LETTER]) == TrimLeft(x) + [LETTER]
  {
    var u := TrimLeft(x);
    hide TrimLeft, TrimRight;
    TrimAppend(x, [LETTER]);
    LeftTrimmed(x);
    NoSpaceBeforeLetter(u);
    TrimLeftDone(u + [LETTER]);
    LetterEnds(u);
  }

  lemma NoSpaceBeforeLetter(u: bytes)
    requires u != [] && SpaceWidth(u) == 0
    ensures SpaceWidth(u + [LETTER]) == 0
  {
  }

  lemma LetterEnds(u: bytes)
    ensures TrimRight(u + [LETTER]) == u + [LETTER]
  {
    hide TrimRight, SpaceTail;
    var s := u + [LETTER];
    SpaceTailIsInvisible(s);
    assert s[|s| - 1] == LETTER;
    TrimRightUnfold(s);
  }

  lemma OnlySpaceTrimmed(u: bytes, c: byte)
    requires 0x20 < c < 0x7F
    ensures c in u ==> c in TrimRight(u)
  {
    hide TrimRight;
    if c in u {
      var k :| 0 <= k < |u| && u[k] == c;
      TrimRightKeeps(u, k);
      TrimRightPrefix(u);
      assert TrimRight(u)[k] == c;
    }
  }

  /** A host that no port or bracket ends grows with the line. */
  lemma UndelimitedGrows(fold: Fold, line: bytes)
    requires HostIn(fold, line).Some? && !Delimited(line)
    ensures HostIn(fold, line + [LETTER]).Some?
    ensures |HostIn(fold, line + [LETTER]).value| > |HostIn(fold, line).value|
  {
    hide TrimLeft, TrimRight, IndexByte, ToLower;
    var c := IndexByte(line, COLON).value;
    var x := line[c + 1..];
    assert (line + [LETTER])[..c] == line[..c] && (line + [LETTER])[c + 1..] == x + [LETTER];
    FirstIndex(line + [LETTER], c, COLON);
    var u := TrimLeft(x);
    TrimRightPrefix(u);
    TrimBeforeLetter(x);
    TrimSpaceTwice(x);
    TrimSpaceTwice(x + [LETTER]);
    OnlySpaceTrimmed(u, COLON);
    var v, w := TrimRight(u), u + [LETTER];
    assert v[0] == u[0] == w[0];
    assert COLON !in w;
  }

  /** A CR at the end of a line is no part of its value. */
  lemma HostBeforeCR(fold: Fold, line: bytes)
    ensures HostIn(fold, line + [CR]) == HostIn(fold, line)
  {
    hide IndexByte, ToLower, TrimLeft, TrimRight;
    match IndexByte(line, COLON)
    case None =>
      assert COLON !in line + [CR];
    case Some(c) =>
      var x := line[c + 1..];
      assert (line + [CR])[..c] == line[..c] && (line + [CR])[c + 1..] == x + [CR];
      FirstIndex(line + [CR], c, COLON);
      TrimBeforeCR(x);
      TrimRightOne(TrimLeft(x), CR);
  }

  // ---------- Hosts under extension ----------

  /**
   * The host that the header lines show stays as it is whatever follows: it is on a line that ends with
   * CR LF, or the capture shows none, or it is the first thing behind the last CR LF and its value shows
   * where it ends.
   */
  ghost predicate HostHolds(fold: Fold, b: bytes)
    decreases |b|
  {
    match IndexCRLF(b)
    case Some(i) => HostIn(fold, b[..i]).Some? || HostHolds(fold, b[i + 2..])
    case None =>
      || Shown(FindHost(fold, b)) == UNKNOWN
      || (HostIn(fold, b) == FindHost(fold, b) && Delimited(b))
  }

  lemma FindHostStep(fold: Fold, b: bytes)
    requires IndexCRLF(b).Some?
    ensures var i := IndexCRLF(b).value;
            FindHost(fold, b) == if HostIn(fold, b[..i]).Some? then HostIn(fold, b[..i]) else FindHost(fold, b[i + 2..])
  {
    hide HostIn, IndexCRLF, IndexByte;
  }

  /** As long as no CR LF comes, lines that end with a bare LF stay as they are. */
  lemma {:induction false} BareLinesStable(fold: Fold, b: bytes, e: bytes)
    requires IndexCRLF(b + e).None? && FindHost(fold, b).Some?
    ensures FindHost(fold, b + e) == FindHost(fold, b)
    decreases |b|
  {
    hide HostIn, IndexCRLF, IndexByte;
    CRLFInPart(b, e);
    FirstLFStable(b, e);
    var i := IndexByte(b, LF).value;
    assert (b + e)[..i] == b[..i] && (b + e)[i + 1..] == b[i + 1..] + e;
    if HostIn(fold, b[..i]).None? {
      CRLFBehind(b + e, i + 1);
      BareLinesStable(fold, b[i + 1..], e);
    }
  }

  lemma CRLFInPart(b: bytes, e: bytes)
    ensures IndexCRLF(b).Some? ==> IndexCRLF(b + e).Some?
  {
    hide IndexCRLF;
    if IndexCRLF(b).Some? {
      assert CRLFAt(b + e, IndexCRLF(b).value);
    }
  }

  lemma CRLFBehind(b: bytes, k: nat)
    requires k <= |b|
    ensures IndexCRLF(b[k..]).Some? ==> IndexCRLF(b).Some?
  {
    hide IndexCRLF;
    if IndexCRLF(b[k..]).Some? {
      assert CRLFAt(b, k + IndexCRLF(b[k..]).value);
    }
  }

  /** The first CR LF that an extension brings ends a line that is all of `b`, but for a CR, and more. */
  lemma ExtendedLine(b: bytes, e: bytes) returns (more: bytes)
    requires IndexCRLF(b).None? && IndexCRLF(b + e).Some?
    ensures var line := (b + e)[..IndexCRLF(b + e).value];
            line == b + more || line + [CR] == b
  {
    hide IndexCRLF;
    NoneIndexStable(b, e);
    var w := b + e;
    var i := IndexCRLF(w).value;
    more := [];
    if i >= |b| {
      more := w[|b|..i];
      assert w[..i] == b + more;
    } else {
      assert w[..i] + [CR] == b;
    }
  }

  lemma {:induction false} HostHoldsMeans(fold: Fold, b: bytes, e: bytes)
    requires HostHolds(fold, b)
    ensures Shown(FindHost(fold, b)) == UNKNOWN || FindHost(fold, b + e) == FindHost(fold, b)
    decreases |b|
  {
    hide HostIn, IndexCRLF, IndexByte;
    if IndexCRLF(b).Some? {
      var i := IndexCRLF(b).value;
      IndexStable(b, e);
      assert (b + e)[..i] == b[..i] && (b + e)[i + 2..] == b[i + 2..] + e;
      if HostIn(fold, b[..i]).None? {
        HostHoldsMeans(fold, b[i + 2..], e);
      }
    } else if Shown(FindHost(fold, b)) != UNKNOWN {
      if IndexCRLF(b + e).None? {
        BareLinesStable(fold, b, e);
      } else {
        LastLineHolds(fold, b, e);
      }
    }
  }

  lemma LastLineHolds(fold: Fold, b: bytes, e: bytes)
    requires IndexCRLF(b).None? && IndexCRLF(b + e).Some? && Delimited(b)
    requires HostIn(fold, b).Some? && HostIn(fold, b).value != UNKNOWN
    ensures FindHost(fold, b + e) == HostIn(fold, b)
  {
    hide HostIn, IndexCRLF, IndexByte, Delimited;
    var more := ExtendedLine(b, e);
    var line := (b + e)[..IndexCRLF(b + e).value];
    if line + [CR] == b {
      HostBeforeCR(fold, line);
    } else {
      DelimitedStable(fold, b, more);
    }
  }

  /** A host that does not hold is contradicted by some extension. */
  lemma {:induction false} HostFails(fold: Fold, b: bytes) returns (e: bytes)
    requires !HostHolds(fold, b)
    ensures b != [] && Shown(FindHost(fold, b)) != UNKNOWN
    ensures Shown(FindHost(fold, b + e)) != Shown(FindHost(fold, b))
    decreases |b|
  {
    hide HostIn, IndexCRLF, IndexByte, FindHost, Delimited;
    NoHostInNothing(fold);
    if IndexCRLF(b).Some? {
      var i := IndexCRLF(b).value;
      e := HostFails(fold, b[i + 2..]);
      IndexStable(b, e);
      assert (b + e)[..i] == b[..i] && (b + e)[i + 2..] == b[i + 2..] + e;
      FindHostStep(fold, b);
      FindHostStep(fold, b + e);
    } else if HostIn(fold, b) != FindHost(fold, b) {
      e := [CR, LF];
      EndedLine(fold, b);
    } else {
      e := [LETTER, CR, LF];
      UndelimitedGrows(fold, b);
      NoCRLFBeforeLetter(b);
      EndedLine(fold, b + [LETTER]);
      assert b + e == b + [LETTER] + [CR, LF];
    }
  }

  lemma NoCRLFBeforeLetter(b: bytes)
    requires IndexCRLF(b).None?
    ensures IndexCRLF(b + [LETTER]).None?
  {
    hide IndexCRLF;
    if IndexCRLF(b + [LETTER]).Some? {
      NoneIndexStable(b, [LETTER]);
    }
  }

  /** Ended with CR LF, what had none is one line. */
  lemma EndedLine(fold: Fold, b: bytes)
    requires IndexCRLF(b).None?
    ensures IndexCRLF(b + [CR, LF]) == Some(|b|)
    ensures FindHost(fold, b + [CR, LF]) == HostIn(fold, b)
  {
    hide HostIn, IndexCRLF, IndexByte;
    var w := b + [CR, LF];
    assert w == b + [CR, LF] + [];
    FirstLine(b, []);
    NoHostInNothing(fold);
  }

  lemma NoHostInNothing(fold: Fold)
    ensures FindHost(fold, []) == None
  {
  }

  lemma {:induction false} TrimBlankAppend(b: bytes, e: bytes)
    requires TrimBlank(b) != []
    ensures TrimBlank(b + e) == TrimBlank(b) + e
  {
    if TrimBlank(b) != b {
      assert (b + e)[1..] == b[1..] + e;
      TrimBlankAppend(b[1..], e);
    }
  }

  lemma {:induction false} TrimBlankDisciplined(b: bytes)
    requires Disciplined(b)
    ensures Disciplined(TrimBlank(b))
  {
    var k := BlankCount(b);
    BlankCountIs(b);
    var q := b[k..];
    if q != [] && q[0] != LF {
      assert forall i :: 0 <= i < |q| ==> q[i] == b[k + i];
    }
  }

  ghost function BlankCount(b: bytes): (k: nat)
  {
    |b| - |TrimBlank(b)|
  }

  lemma {:induction false} BlankCountIs(b: bytes)
    ensures BlankCount(b) <= |b| && TrimBlank(b) == b[BlankCount(b)..]
    ensures TrimBlank(b) != [] ==> TrimBlank(b)[0] != LF
  {
    if TrimBlank(b) != b {
      BlankCountIs(b[1..]);
      assert b[BlankCount(b)..] == b[1..][BlankCount(b[1..])..];
    }
  }

  // ---------- Truncation ----------

  /** What a capture says, against the whole request: same method and path, and no wrong host. */
  ghost predicate Consistent(capture: Parsed, whole: Parsed)
  {
    && capture.Parsed? && whole.Parsed? && capture.verb == whole.verb && capture.path == whole.path
    && (capture.host == UNKNOWN || capture.host == whole.host)
  }

  /**
   * The request line is cut, and what it has after two words is white space and at most the start of a
   * white-space character of two or three bytes.
   */
  ghost predicate AtRisk(q: bytes)
  {
    LF !in q && PartialSpace(TrimLeft(AfterTwo(q)))
  }

  /** The words of a cut line, and of that line with more bytes. */
  lemma CutLineWords(q: bytes, n: nat, e: bytes)
    requires n <= |q| && |Fields(q[..n])| >= 3
    ensures Word(q + e) == Fields(q[..n])[0] && Word(AfterWord(q + e)) == Fields(q[..n])[1]
    ensures AfterTwo(q + e) == AfterTwo(q) + e && SpaceWidth(AfterTwo(q)) > 0
  {
    hide Fields, Word, AfterWord, AfterTwo;
    var head := q[..n];
    ThreeFields(head);
    TrimNothing();
    assert q == head + q[n..];
    AfterTwoStable(head, q[n..]);
    SpaceWidthStable(AfterTwo(head), q[n..]);
    AfterTwoStable(q, e);
  }

  lemma CutLineStable(q: bytes, n: nat, e: bytes)
    requires n <= |q| && |Fields(q[..n])| >= 3 && !PartialSpace(TrimLeft(AfterTwo(q)))
    ensures |Fields(q + e)| >= 3 && Fields(q + e)[0] == Fields(q[..n])[0] && Fields(q + e)[1] == Fields(q[..n])[1]
  {
    hide Fields, Word, AfterWord, AfterTwo;
    CutLineWords(q, n, e);
    TrimStable(AfterTwo(q), e);
    ThreeFields(q + e);
  }

  lemma SpaceWidthBeforeCR(s: bytes)
    requires s != []
    ensures SpaceWidth(s + [CR]) == SpaceWidth(s)
  {
  }

  lemma {:induction false} TrimBeforeCR(s: bytes)
    ensures TrimLeft(s + [CR]) == if TrimLeft(s) == [] then [] else TrimLeft(s) + [CR]
  {
    if s == [] {
      assert s + [CR] == [CR];
    } else {
      SpaceWidthBeforeCR(s);
      if SpaceWidth(s) > 0 {
        assert (s + [CR])[SpaceWidth(s)..] == s[SpaceWidth(s)..] + [CR];
        TrimBeforeCR(s[SpaceWidth(s)..]);
      }
    }
  }

  lemma {:induction false} WordBeforeCR(s: bytes)
    ensures WordLength(s + [CR]) == WordLength(s)
  {
    if s == [] {
      assert s + [CR] == [CR];
    } else {
      SpaceWidthBeforeCR(s);
      if SpaceWidth(s) == 0 {
        assert (s + [CR])[1..] == s[1..] + [CR];
        WordBeforeCR(s[1..]);
      }
    }
  }

  /** A CR at the end of a line is no part of a word. */
  lemma {:induction false} FieldsBeforeCR(s: bytes)
    ensures Fields(s + [CR]) == Fields(s)
    decreases |s|
  {
    TrimBeforeCR(s);
    var u := TrimLeft(s);
    if u != [] {
      WordBeforeCR(u);
      LeftTrimmed(s);
      var n := WordLength(u);
      assert (u + [CR])[..n] == u[..n] && (u + [CR])[n..] == u[n..] + [CR];
      FieldsBeforeCR(u[n..]);
    }
  }

  /** Where the request line ends after an extension, seen from a capture without CR LF. */
  lemma WholeLineOf(q: bytes, e: bytes) returns (more: bytes)
    requires IndexCRLF(q).None?
    ensures var line := (q + e)[..LineEnd(q + e)];
            line == q + more || line + [CR] == q || line == q[..LineEnd(q)]
  {
    hide IndexCRLF, IndexByte;
    var w := q + e;
    more := [];
    if IndexCRLF(w).Some? {
      more := ExtendedLine(q, e);
    } else if IndexByte(q, LF).Some? {
      FirstLFStable(q, e);
      assert w[..LineEnd(w)] == q[..LineEnd(q)];
    } else {
      var n := LineEnd(w);
      if n >= |q| {
        more := w[|q|..n];
        assert w[..n] == q + more;
      } else {
        assert IndexByte(w, LF).None?;
        assert w[..256] == q[..256];
      }
    }
  }

  /** A line break after the third word has begun leaves no white space to complete. */
  lemma BrokenLineIsNotPartial(q: bytes, n: nat)
    requires n < |q| && q[n] == LF && |Fields(q[..n])| >= 3
    ensures !PartialSpace(TrimLeft(AfterTwo(q)))
  {
    hide Fields, Word, AfterWord, AfterTwo, TrimLeft, PartialSpace, SpaceWidth;
    var head, tail := q[..n], q[n..];
    ThreeFields(head);
    TrimNothing();
    assert q == head + tail;
    AfterTwoStable(head, tail);
    var x := TrimLeft(AfterTwo(head));
    TrimAppend(AfterTwo(head), tail);
    LeftTrimmed(AfterTwo(head));
    NoSpaceBeforeLF(x, tail);
    TrimLeftDone(x + tail);
    NotPartial(x + tail, |x|);
  }

  lemma NoSpaceBeforeLF(x: bytes, tail: bytes)
    requires x != [] && SpaceWidth(x) == 0 && tail != [] && tail[0] == LF
    ensures SpaceWidth(x + tail) == 0
  {
  }

  /** A capture without CR LF in which no white space can be completed keeps its first two words. */
  lemma CutLine(fold: Fold, q: bytes, e: bytes)
    requires IndexCRLF(q).None? && !AtRisk(q) && ParseTrimmed(fold, q).Parsed?
    ensures var r := ParseTrimmed(fold, q + e);
            r.Parsed? && r.verb == ParseTrimmed(fold, q).verb && r.path == ParseTrimmed(fold, q).path
  {
    hide Fields, IndexCRLF, IndexByte, FindHost, SkipEOL, AfterTwo;
    var n := LineEnd(q);
    if LF in q {
      BrokenLineIsNotPartial(q, n);
    }
    var more := WholeLineOf(q, e);
    var line := (q + e)[..LineEnd(q + e)];
    CutLineStable(q, n, more);
    CutLineStable(q, n, []);
    FieldsBeforeCR(line);
    assert q + [] == q;
  }

  lemma NoHostInCutLine(fold: Fold, q: bytes, n: nat)
    requires LF !in q && n <= |q|
    ensures FindHost(fold, SkipEOL(q[n..])) == None
  {
    hide IndexCRLF, IndexByte;
    var rest := SkipEOL(q[n..]);
    assert forall i :: 0 <= i < |q[n..]| ==> q[n..][i] in q;
    assert LF !in rest;
    assert IndexByte(rest, LF).None? && IndexCRLF(rest).None?;
  }

  /** The bytes that complete a partial white-space character. */
  ghost function Completion(x: bytes): (c: bytes)
  {
    if x == [] then []
    else if x == [0xC2] then [0x85]
    else if x == [0xE1] then [0x9A, 0x80]
    else if x == [0xE2] || x == [0xE3] then [0x80, 0x80]
    else if x == [0xE2, 0x81] then [0x9F]
    else [0x80]
  }

  lemma CompletionCompletes(x: bytes)
    requires PartialSpace(x)
    ensures LF !in Completion(x) && TrimLeft(x + Completion(x)) == []
  {
    hide TrimLeft;
    OneSpace([0xC2, 0x85]);
    OneSpace([0xE1, 0x9A, 0x80]);
    OneSpace([0xE2, 0x80, 0x80]);
    OneSpace([0xE2, 0x81, 0x9F]);
    OneSpace([0xE3, 0x80, 0x80]);
    TrimNothing();
    var s := x + Completion(x);
    if x == [] {
      assert s == [];
    } else if |x| == 1 {
      assert s == [0xC2, 0x85] || s == [0xE1, 0x9A, 0x80] || s == [0xE2, 0x80, 0x80] || s == [0xE3, 0x80, 0x80];
    } else {
      assert s == [0xE1, 0x9A, 0x80] || s == [0xE2, 0x80, 0x80] || s == [0xE2, 0x81, 0x9F] || s == [0xE3, 0x80, 0x80];
    }
  }

  lemma OneSpace(s: bytes)
    requires s != [] && SpaceWidth(s) == |s|
    ensures TrimLeft(s) == []
  {
    assert s[|s|..] == [];
  }

  lemma DisciplinedAppend(p: bytes, c: bytes)
    requires Disciplined(p) && LF !in c
    ensures Disciplined(p + c + [CR, LF])
  {
    assert forall j :: 0 <= j < |c| ==> c[j] != LF;
  }

  /** Completing the white space and ending the line leaves two words: the whole request is rejected. */
  lemma RiskIsReal(fold: Fold, q: bytes)
    requires AtRisk(q) && ParseTrimmed(fold, q).Parsed?
    ensures var c := Completion(TrimLeft(AfterTwo(q)));
            ParseTrimmed(fold, q + c + [CR, LF]) == Rejected
  {
    hide Fields, IndexCRLF, IndexByte, FindHost, SkipEOL, AfterTwo, Completion, Word, AfterWord;
    var c := Completion(TrimLeft(AfterTwo(q)));
    CompletionCompletes(TrimLeft(AfterTwo(q)));
    var line := q + c;
    var w := line + [CR, LF];
    EndsAtFirstLF(line);
    assert w[..|line|] == line;
    CutLineWords(q, LineEnd(q), c);
    TrimAppend(AfterTwo(q), c);
    ThreeFields(line);
  }

  lemma EndsAtFirstLF(line: bytes)
    requires LF !in line
    ensures LineEnd(line + [CR, LF]) == |line|
  {
    hide IndexCRLF, IndexByte;
    var w := line + [CR, LF];
    assert CRLFAt(w, |line|);
    forall i | 0 <= i < |line|
      ensures !CRLFAt(w, i)
    {
      assert i + 1 < |line| ==> w[i + 1] == line[i + 1];
    }
  }

  /**
   * The condition on a capture: without CR LF, no white space at risk and no host shown; with CR LF, a
   * host that holds.
   */
  ghost predicate Reliable(fold: Fold, q: bytes)
  {
    match IndexCRLF(q)
    case None => !AtRisk(q) && ParseTrimmed(fold, q) != Rejected && ParseTrimmed(fold, q).host == UNKNOWN
    case Some(i) => HostHolds(fold, SkipEOL(q[i..]))
  }

  lemma SkipStable(x: bytes, e: bytes)
    requires CRLFAt(x, 0)
    ensures SkipEOL(x) != [] ==> SkipEOL(x + e) == SkipEOL(x) + e
  {
    if SkipEOL(x) != [] {
      assert (x + e)[2..] == x[2..] + e;
      assert x[2] == LF ==> (x + e)[2..][1..] == x[2..][1..] + e;
    }
  }

  /** With a whole request line, only the host can change. */
  lemma WholeLine(fold: Fold, q: bytes, e: bytes)
    requires IndexCRLF(q).Some? && ParseTrimmed(fold, q).Parsed?
    ensures var r := ParseTrimmed(fold, q + e);
            r.Parsed? && r.verb == ParseTrimmed(fold, q).verb && r.path == ParseTrimmed(fold, q).path
    ensures var b := SkipEOL(q[IndexCRLF(q).value..]);
            && ParseTrimmed(fold, q).host == Shown(FindHost(fold, b))
            && (b != [] ==> ParseTrimmed(fold, q + e).host == Shown(FindHost(fold, b + e)))
  {
    hide Fields, IndexCRLF, FindHost, SkipEOL;
    IndexStable(q, e);
    var i := IndexCRLF(q).value;
    assert (q + e)[..i] == q[..i] && (q + e)[i..] == q[i..] + e;
    SkipStable(q[i..], e);
  }

  lemma ReliableMeans(fold: Fold, q: bytes, e: bytes)
    requires ParseTrimmed(fold, q).Parsed? && Reliable(fold, q)
    ensures Consistent(ParseTrimmed(fold, q), ParseTrimmed(fold, q + e))
  {
    hide ParseTrimmed, HostHolds, FindHost, SkipEOL, IndexCRLF;
    if IndexCRLF(q).None? {
      CutLine(fold, q, e);
    } else {
      WholeLine(fold, q, e);
      var b := SkipEOL(q[IndexCRLF(q).value..]);
      HostHoldsMeans(fold, b, e);
      NoHostInNothing(fold);
    }
  }

  /** A host on lines without CR LF is taken back when CR LF ends all of them as one line. */
  lemma BareHostIsTakenBack(fold: Fold, q: bytes)
    requires IndexCRLF(q).None? && ParseTrimmed(fold, q).Parsed? && ParseTrimmed(fold, q).host != UNKNOWN
    ensures var r := ParseTrimmed(fold, q + [CR, LF]);
            r == ParseTrimmed(fold, q).(host := UNKNOWN)
  {
    hide Fields, IndexCRLF, IndexByte, FindHost, SkipEOL, AtRisk;
    HostNeedsLF(fold, q);
    CutLine(fold, q, [CR, LF]);
    EndedLine(fold, q);
    var w := q + [CR, LF];
    assert w[|q|..] == [CR, LF];
    SkipsToNothing();
    NoHostInNothing(fold);
  }

  lemma SkipsToNothing()
    ensures SkipEOL([CR, LF]) == []
  {
  }

  lemma HostNeedsLF(fold: Fold, q: bytes)
    requires ParseTrimmed(fold, q).Parsed? && ParseTrimmed(fold, q).host != UNKNOWN
    ensures LF in q && !AtRisk(q)
  {
    hide Fields, IndexCRLF, IndexByte, FindHost, SkipEOL, AfterTwo;
    if LF !in q {
      NoHostInCutLine(fold, q, LineEnd(q));
    }
  }

  lemma UnreliableFails(fold: Fold, q: bytes) returns (e: bytes)
    requires ParseTrimmed(fold, q).Parsed? && !Reliable(fold, q)
    ensures !Consistent(ParseTrimmed(fold, q), ParseTrimmed(fold, q + e))
  {
    hide ParseTrimmed, HostHolds, FindHost, SkipEOL, IndexCRLF, Completion, AtRisk;
    if IndexCRLF(q).Some? {
      e := HostFails(fold, SkipEOL(q[IndexCRLF(q).value..]));
      WholeLine(fold, q, e);
    } else if AtRisk(q) {
      var c := Completion(TrimLeft(AfterTwo(q)));
      e := c + [CR, LF];
      assert q + e == q + c + [CR, LF];
      RiskIsReal(fold, q);
    } else {
      e := [CR, LF];
      BareHostIsTakenBack(fold, q);
    }
  }

  /**
   * Truncation, for every capture that parses and everything that can follow it: the capture is right
   * about the whole exactly when it is reliable.
   */
  lemma TruncationDecided(fold: Fold, p: bytes)
    requires Parse(fold, p).Parsed?
    ensures (forall r :: p <= r ==> Consistent(Parse(fold, p), Parse(fold, r))) <==> Reliable(fold, TrimBlank(p))
  {
    hide ParseTrimmed, Reliable, Consistent, TrimBlank;
    var q := TrimBlank(p);
    ParsedNonEmpty(fold, q);
    if Reliable(fold, q) {
      forall r | p <= r
        ensures Consistent(Parse(fold, p), Parse(fold, r))
      {
        var e := r[|p|..];
        assert r == p + e;
        TrimBlankAppend(p, e);
        ReliableMeans(fold, q, e);
      }
    } else {
      var e := UnreliableFails(fold, q);
      TrimBlankAppend(p, e);
      assert p <= p + e;
    }
  }

  lemma {:induction false} DisciplinedHostHolds(fold: Fold, b: bytes)
    requires Disciplined(b)
    ensures HostHolds(fold, b)
    decreases |b|
  {
    hide HostIn, IndexCRLF, IndexByte;
    DisciplinedLines(b);
    if IndexCRLF(b).Some? {
      DisciplinedHostHolds(fold, b[IndexCRLF(b).value + 2..]);
    }
  }

  lemma DisciplinedIsReliable(fold: Fold, q: bytes)
    requires Disciplined(q) && ParseTrimmed(fold, q).Parsed? && !AtRisk(q)
    ensures Reliable(fold, q)
  {
    hide Fields, IndexCRLF, IndexByte, FindHost, SkipEOL, AtRisk, HostHolds, Disciplined;
    DisciplinedLines(q);
    if IndexCRLF(q).Some? {
      DisciplinedHostHolds(fold, q[IndexCRLF(q).value + 2..]);
    } else {
      NoHostInCutLine(fold, q, LineEnd(q));
    }
  }

  /**
   * A capture that parses is right about every well-formed request it can be the start of, exactly when
   * it is not at risk: when its request line is complete, or when that line goes on after two words with
   * something that no further bytes can turn into white space.
   */
  lemma TruncationIsSound(fold: Fold, p: bytes)
    requires Disciplined(p) && Parse(fold, p).Parsed?
    ensures (forall r :: p <= r && Disciplined(r) ==> Consistent(Parse(fold, p), Parse(fold, r)))
            <==> !AtRisk(TrimBlank(p))
  {
    hide ParseTrimmed, AtRisk, Consistent, Disciplined, Reliable, TrimBlank;
    if AtRisk(TrimBlank(p)) {
      var c := CounterExample(fold, p);
      assert !Consistent(Parse(fold, p), Parse(fold, c));
    } else {
      TrimBlankDisciplined(p);
      DisciplinedIsReliable(fold, TrimBlank(p));
      TruncationDecided(fold, p);
    }
  }

  lemma ParsedNonEmpty(fold: Fold, q: bytes)
    requires ParseTrimmed(fold, q).Parsed?
    ensures q != []
  {
  }

  lemma CounterExample(fold: Fold, p: bytes) returns (r: bytes)
    requires Disciplined(p) && Parse(fold, p).Parsed? && AtRisk(TrimBlank(p))
    ensures p <= r && Disciplined(r) && Parse(fold, r) == Rejected
    ensures !Consistent(Parse(fold, p), Parse(fold, r))
  {
    hide ParseTrimmed, TrimBlank, Completion;
    var q := TrimBlank(p);
    ParsedNonEmpty(fold, q);
    var c := Completion(TrimLeft(AfterTwo(q)));
    CompletionCompletes(TrimLeft(AfterTwo(q)));
    r := p + c + [CR, LF];
    assert r == p + (c + [CR, LF]);
    assert q + (c + [CR, LF]) == q + c + [CR, LF];
    TrimBlankAppend(p, c + [CR, LF]);
    RiskIsReal(fold, q);
    DisciplinedAppend(p, c);
  }

  lemma AsciiSuffix(s: bytes, k: nat)
    requires IsAscii(s) && k <= |s|
    ensures IsAscii(s[k..]) && IsAscii(s[..k])
    ensures s != [] ==> s[0] < 0x80
  {
    assert forall c :: c in s[k..] ==> c in s;
    assert forall c :: c in s[..k] ==> c in s;
    assert s != [] ==> s[0] in s;
  }

  lemma {:induction false} TrimKeepsAscii(s: bytes)
    requires IsAscii(s)
    ensures IsAscii(TrimLeft(s))
  {
    hide IsAscii;
    if SpaceWidth(s) > 0 {
      AsciiSuffix(s, SpaceWidth(s));
      TrimKeepsAscii(s[SpaceWidth(s)..]);
    }
  }

  lemma AfterWordAscii(s: bytes)
    requires IsAscii(s)
    ensures IsAscii(AfterWord(s))
  {
    hide IsAscii, WordLength;
    TrimKeepsAscii(s);
    AsciiSuffix(TrimLeft(s), WordLength(TrimLeft(s)));
  }

  lemma AfterTwoAscii(s: bytes)
    requires IsAscii(s)
    ensures IsAscii(AfterTwo(s))
  {
    AfterWordAscii(s);
    AfterWordAscii(AfterWord(s));
  }

  /** An ASCII capture is never at risk. */
  lemma AsciiIsNeverAtRisk(fold: Fold, p: bytes)
    requires IsAscii(p) && Parse(fold, p).Parsed?
    ensures !AtRisk(TrimBlank(p))
  {
    hide IsAscii, Fields, AfterWord, Word, FindHost, LineEnd, TrimBlank, PartialSpace, AfterTwo;
    hide TrimLeft, SpaceWidth, SkipEOL;
    var q := TrimBlank(p);
    BlankCountIs(p);
    AsciiSuffix(p, BlankCount(p));
    var n := LineEnd(q);
    AsciiSuffix(q, n);
    var head := q[..n];
    ThreeFields(head);
    TrimNothing();
    AfterTwoAscii(head);
    TrimKeepsAscii(AfterTwo(head));
    var x := TrimLeft(AfterTwo(head));
    AsciiSuffix(x, 0);
    StartsLikeAscii(x);
    StartsLikeAscii(x + q[n..]);
    AfterTwoStable(head, q[n..]);
    assert q == head + q[n..];
    TrimStable(AfterTwo(head), q[n..]);
  }

  lemma StartsLikeAscii(x: bytes)
    requires x != [] && x[0] < 0x80
    ensures !PartialSpace(x)
  {
  }

  /** "GET /x " and the first two bytes of U+2000. */
  const CUT_REQUEST: bytes := [0x47, 0x45, 0x54, 0x20, SLASH, 0x78, 0x20, 0xE2, 0x80]

  lemma CutRequestWords()
    ensures Word(AfterWord(CUT_REQUEST)) == [SLASH, 0x78]
    ensures TrimLeft(AfterTwo(CUT_REQUEST)) == [0xE2, 0x80]
  {
    hide Word, AfterWord, TrimLeft;
    var verb, path, cut: bytes := [0x47, 0x45, 0x54], [SLASH, 0x78], [0xE2, 0x80];
    assert CUT_REQUEST == verb + [SPACE] + (path + [SPACE] + cut);
    assert CUT_REQUEST == [] + (verb + [SPACE] + (path + [SPACE] + cut));
    PlainIsSolid(verb);
    PlainIsSolid(path);
    SolidWord([], verb, [SPACE], path + [SPACE] + cut);
    SolidWord([SPACE], path, [SPACE], cut);
    BlankInFront([SPACE], cut);
    TrimLeftDone(cut);
  }

  /**
   * Cut there, the request parses; but the request that completes the character and ends the line has
   * no third word and is rejected.
   */
  lemma CutInsideWideSpace(fold: Fold)
    ensures Disciplined(CUT_REQUEST) && Parse(fold, CUT_REQUEST).Parsed? && AtRisk(TrimBlank(CUT_REQUEST))
    ensures exists r :: CUT_REQUEST <= r && Disciplined(r) && Parse(fold, r) == Rejected
  {
    hide Fields, FindHost, IndexCRLF, IndexByte, Word, AfterWord, AfterTwo, TrimLeft;
    var p := CUT_REQUEST;
    assert LF !in p;
    DisciplinedLines(p);
    assert LineEnd(p) == 9 && p[..9] == p;
    CutRequestWords();
    ThreeFields(p);
    var r := CounterExample(fold, p);
  }

  // ---------- A whole request ----------

  const SPACE: byte := 0x20

  /** Some text with no white-space character anywhere. */
  ghost predicate Solid(w: bytes)
  {
    w != [] && forall k :: 0 <= k < |w| ==> SpaceWidth(w[k..]) == 0
  }

  lemma PlainIsSolid(w: bytes)
    requires Plain(w)
    ensures Solid(w)
  {
    forall k | 0 <= k < |w|
      ensures SpaceWidth(w[k..]) == 0
    {
      PlainIsNoSpace(w, k);
    }
  }

  lemma BlankFirst(gap: bytes, rest: bytes)
    requires gap != [] && Blank(gap)
    ensures SpaceWidth(gap + rest) == 1
  {
  }

  lemma NoSpaceAcross(u: bytes, gap: bytes, rest: bytes)
    requires u != [] && SpaceWidth(u) == 0 && gap != [] && Blank(gap)
    ensures SpaceWidth(u + gap + rest) == 0
  {
  }

  /** A word is what stands between white space. */
  lemma SolidWord(lead: bytes, w: bytes, gap: bytes, rest: bytes)
    requires Blank(lead) && Solid(w) && gap != [] && Blank(gap)
    ensures Word(lead + (w + gap + rest)) == w && AfterWord(lead + (w + gap + rest)) == gap + rest
  {
    hide TrimLeft, SpaceWidth, Blank;
    var s := w + gap + rest;
    BlankInFront(lead, s);
    forall k | 0 <= k < |w|
      ensures SpaceWidth(s[k..]) == 0
    {
      assert s[k..] == w[k..] + gap + rest;
      NoSpaceAcross(w[k..], gap, rest);
    }
    assert s[0..] == s && s[|w|..] == gap + rest && s[..|w|] == w;
    TrimLeftDone(s);
    BlankFirst(gap, rest);
    WordLengthIs(s, |w|);
  }

  lemma {:induction false} WordLengthIs(s: bytes, n: nat)
    requires n <= |s| && (forall k :: 0 <= k < n ==> SpaceWidth(s[k..]) == 0)
    requires n == |s| || SpaceWidth(s[n..]) > 0
    ensures WordLength(s) == n
    decreases n
  {
    hide SpaceWidth;
    if n == 0 {
      assert s[0..] == s;
    } else {
      assert s[0..] == s;
      forall k | 0 <= k < n - 1
        ensures SpaceWidth(s[1..][k..]) == 0
      {
        assert s[1..][k..] == s[k + 1..];
      }
      assert s[1..][n - 1..] == s[n..];
      WordLengthIs(s[1..], n - 1);
    }
  }

  /** A request line has the words that white space separates. */
  lemma RequestLineWords(verb: bytes, gap: bytes, path: bytes, gap': bytes, version: bytes)
    requires Solid(verb) && Solid(path) && Solid(version) && gap != [] && Blank(gap) && gap' != [] && Blank(gap')
    ensures var line := verb + gap + (path + gap' + version);
            |Fields(line)| >= 3 && Fields(line)[0] == verb && Fields(line)[1] == path
  {
    hide Fields, Word, AfterWord, TrimLeft;
    var after := path + gap' + version;
    var line := verb + gap + after;
    assert [] + line == line;
    SolidWord([], verb, gap, after);
    SolidWord(gap, path, gap', version);
    BlankInFront(gap', version);
    assert version[0..] == version;
    TrimLeftDone(version);
    ThreeFields(line);
  }

  /** A word of a line, with the white space in front of it. */
  datatype Piece = Piece(gap: seq<bytes>, word: bytes)

  ghost function Laid(ps: seq<Piece>, tail: seq<bytes>): (line: bytes)
  {
    if ps == [] then Flatten(tail) else Flatten(ps[0].gap) + (ps[0].word + Laid(ps[1..], tail))
  }

  /** No white space starts inside a word, and there is some between two of them. */
  ghost predicate ValidPieces(ps: seq<Piece>, tail: seq<bytes>)
  {
    if ps == [] then Spaces(tail) else
    var rest := Laid(ps[1..], tail);
    && Spaces(ps[0].gap) && ps[0].word != [] && (|ps| > 1 ==> ps[1].gap != [])
    && (forall k :: 0 <= k < |ps[0].word| ==> SpaceWidth((ps[0].word + rest)[k..]) == 0)
    && ValidPieces(ps[1..], tail)
  }

  ghost function WordsOf(ps: seq<Piece>): (ws: seq<bytes>)
    ensures |ws| == |ps| && forall i :: 0 <= i < |ps| ==> ws[i] == ps[i].word
  {
    if ps == [] then [] else [ps[0].word] + WordsOf(ps[1..])
  }

  /** The words of a line, any number of them, are what white space separates. */
  lemma {:induction false} FieldsAre(ps: seq<Piece>, tail: seq<bytes>)
    requires ValidPieces(ps, tail)
    ensures Fields(Laid(ps, tail)) == WordsOf(ps)
    decreases |ps|
  {
    hide TrimLeft, WordLength, SpaceWidth, Flatten, Spaces;
    var line := Laid(ps, tail);
    if ps == [] {
      SpacesTrimAway(tail, []);
      TrimNothing();
      assert line + [] == line;
    } else {
      var word, rest := ps[0].word, Laid(ps[1..], tail);
      var u := word + rest;
      FieldsAre(ps[1..], tail);
      SpacesTrimAway(ps[0].gap, u);
      assert u[0..] == u;
      TrimLeftDone(u);
      assert u[|word|..] == rest && u[..|word|] == word;
      SpaceFollows(ps, tail);
      WordLengthIs(u, |word|);
    }
  }

  lemma SpaceFollows(ps: seq<Piece>, tail: seq<bytes>)
    requires ps != [] && ValidPieces(ps, tail)
    ensures var rest := Laid(ps[1..], tail); rest == [] || SpaceWidth(rest) > 0
  {
    hide SpaceWidth;
    if |ps| > 1 {
      SpacesStart(ps[1].gap, ps[1].word + Laid(ps[1..][1..], tail));
    } else if tail != [] {
      SpacesStart(tail, []);
      assert Flatten(tail) + [] == Flatten(tail);
    }
  }

  lemma SpacesStart(cs: seq<bytes>, t: bytes)
    requires cs != [] && Spaces(cs)
    ensures SpaceWidth(Flatten(cs) + t) > 0
  {
    hide SpaceWidth;
    SpaceKept(cs[0], Flatten(cs[1..]) + t);
    assert Flatten(cs) + t == cs[0] + (Flatten(cs[1..]) + t);
  }

  /** Every line is laid out like that. */
  lemma {:induction false} EveryLineIsLaid(s: bytes) returns (ps: seq<Piece>, tail: seq<bytes>)
    ensures ValidPieces(ps, tail) && Laid(ps, tail) == s
    decreases |s|
  {
    hide TrimLeft, WordLength, SpaceWidth, Flatten, Spaces, ValidPieces;
    var lead := LeadOf(s);
    var u := TrimLeft(s);
    if u == [] {
      ps, tail := [], lead;
      NothingLaid(tail);
    } else {
      LeftTrimmed(s);
      WordAtFront(u);
      var n := WordLength(u);
      assert |u| <= |s|;
      var more;
      more, tail := EveryLineIsLaid(u[n..]);
      ps := [Piece(lead, u[..n])] + more;
      assert ps[1..] == more && u == u[..n] + u[n..];
      OneWordMore(lead, u, n, more, tail);
    }
  }

  lemma NothingLaid(tail: seq<bytes>)
    requires Spaces(tail)
    ensures ValidPieces([], tail) && Laid([], tail) == Flatten(tail)
  {
  }

  lemma {:induction false} WordAtFront(u: bytes)
    ensures var n := WordLength(u);
            && (u != [] && SpaceWidth(u) == 0 ==> n > 0) && (n == |u| || SpaceWidth(u[n..]) > 0)
            && forall k :: 0 <= k < n ==> SpaceWidth(u[k..]) == 0
  {
    hide SpaceWidth;
    assert u[0..] == u;
    if u != [] && SpaceWidth(u) == 0 {
      WordAtFront(u[1..]);
      var n := WordLength(u[1..]);
      assert u[1..][n..] == u[n + 1..];
      forall k | 0 <= k < n + 1
        ensures SpaceWidth(u[k..]) == 0
      {
        if k > 0 {
          assert u[1..][k - 1..] == u[k..];
        }
      }
    }
  }

  lemma OneWordMore(lead: seq<bytes>, u: bytes, n: nat, more: seq<Piece>, tail: seq<bytes>)
    requires Spaces(lead) && 0 < n <= |u| && (n == |u| || SpaceWidth(u[n..]) > 0)
    requires forall k :: 0 <= k < n ==> SpaceWidth(u[k..]) == 0
    requires ValidPieces(more, tail) && Laid(more, tail) == u[n..]
    ensures ValidPieces([Piece(lead, u[..n])] + more, tail)
  {
    hide SpaceWidth, Spaces;
    var ps := [Piece(lead, u[..n])] + more;
    assert ps[1..] == more && u == u[..n] + u[n..];
    if more != [] {
      NoGapNoSpace(more, tail);
    }
  }

  lemma NoGapNoSpace(ps: seq<Piece>, tail: seq<bytes>)
    requires ps != [] && ValidPieces(ps, tail)
    ensures ps[0].gap == [] ==> SpaceWidth(Laid(ps, tail)) == 0
  {
    hide SpaceWidth, Spaces;
    var v := ps[0].word + Laid(ps[1..], tail);
    assert v[0..] == v;
    if ps[0].gap == [] {
      assert Laid(ps, tail) == v;
    }
  }

  ghost function Terminated(lines: seq<bytes>): (b: bytes)
  {
    if lines == [] then [] else lines[0] + [CR, LF] + Terminated(lines[1..])
  }

  /** A line runs up to the first CR LF; a bare LF inside it does not end it. */
  lemma FirstLine(line: bytes, rest: bytes)
    requires forall i :: 0 <= i < |line| ==> !CRLFAt(line, i)
    ensures IndexCRLF(line + [CR, LF] + rest) == Some(|line|)
    ensures TakeLine(line + [CR, LF] + rest) == Some((line, rest))
  {
    hide IndexCRLF, IndexByte;
    var w := line + [CR, LF] + rest;
    assert CRLFAt(w, |line|);
    forall i | 0 <= i < |line|
      ensures !CRLFAt(w, i)
    {
      assert w[i] == line[i] && w[i + 1] == if i + 1 < |line| then line[i + 1] else CR;
      assert !CRLFAt(line, i);
    }
    assert w[..|line|] == line && w[|line| + 2..] == rest;
  }

  /** Only where no CR LF follows any more does a bare LF end a line. */
  lemma FirstBareLine(line: bytes, rest: bytes)
    requires LF !in line && forall i :: !CRLFAt(line + [LF] + rest, i)
    ensures TakeLine(line + [LF] + rest) == Some((line, rest))
  {
    hide IndexCRLF, IndexByte;
    var w := line + [LF] + rest;
    assert w[..|line|] == line && w[|line| + 1..] == rest;
    FirstIndex(w, |line|, LF);
  }

  lemma NoCRLFWithoutLF(line: bytes)
    requires LF !in line
    ensures forall i :: !CRLFAt(line, i)
  {
  }

  lemma {:induction false} HostAfterOtherLines(fold: Fold, lines: seq<bytes>, hostLine: bytes, rest: bytes)
    requires forall i :: 0 <= i < |lines| ==> LF !in lines[i] && HostIn(fold, lines[i]).None?
    requires LF !in hostLine && HostIn(fold, hostLine).Some?
    ensures FindHost(fold, Terminated(lines) + hostLine + [CR, LF] + rest) == HostIn(fold, hostLine)
    decreases |lines|
  {
    hide TakeLine, HostIn;
    if lines == [] {
      assert Terminated(lines) + hostLine + [CR, LF] + rest == hostLine + [CR, LF] + rest;
      NoCRLFWithoutLF(hostLine);
      FirstLine(hostLine, rest);
    } else {
      var more := Terminated(lines[1..]) + hostLine + [CR, LF] + rest;
      assert Terminated(lines) + hostLine + [CR, LF] + rest == lines[0] + [CR, LF] + more;
      NoCRLFWithoutLF(lines[0]);
      FirstLine(lines[0], more);
      HostAfterOtherLines(fold, lines[1..], hostLine, rest);
    }
  }

  /** The four letters of `host`, each in either case. */
  ghost predicate SpellsHost(word: bytes)
  {
    |word| == 4 && forall i :: 0 <= i < 4 ==> word[i] == HOST[i] || word[i] == HOST[i] - 0x20
  }

  /** In front of the colon: those letters, with blanks or none around them. */
  lemma HostSpelled(fold: Fold, lead: bytes, word: bytes, pad: bytes)
    requires Blank(lead) && SpellsHost(word) && Blank(pad)
    ensures var name := lead + word + pad;
            name != [] && COLON !in name && TrimSpace(ToLower(fold, name)) == HOST
  {
    hide TrimSpace;
    var name := lead + word + pad;
    assert IsAscii(name);
    assert ToLower(fold, name) == lead + HOST + pad;
    assert Plain(HOST);
    TrimPlain(HOST);
    TrimPadded(lead, HOST, pad);
  }

  /** A Host line, with or without blanks around its parts, gives what its value is normalised to. */
  lemma HostLine(fold: Fold, name: bytes, pad: bytes, val: bytes, tail: bytes)
    requires name != [] && TrimSpace(ToLower(fold, name)) == HOST && COLON !in name
    requires Blank(pad) && Blank(tail) && Bare(val)
    ensures HostIn(fold, name + [COLON] + (pad + val + tail)) == Some(NormalizeHostHeader(val))
  {
    hide ToLower, TrimSpace, IndexByte, NormalizeHostHeader;
    var line := name + [COLON] + (pad + val + tail);
    assert line[..|name|] == name && line[|name| + 1..] == pad + val + tail;
    FirstIndex(line, |name|, COLON);
    TrimPadded(pad, val, tail);
  }

  /**
   * A Host line: the name in any letter case, blanks or none around the name and the value, and a value
   * that is a host, with a port or without, and has no white space at its ends.
   */
  lemma HostLineNames(fold: Fold, lead: bytes, word: bytes, gap: bytes, pad: bytes, host: bytes, port: bytes,
                      tail: bytes)
    requires Blank(lead) && SpellsHost(word) && Blank(gap) && Blank(pad) && Blank(tail)
    requires host != [] && COLON !in host && host[0] != OPEN && (port == [] || port[0] == COLON) && Bare(host + port)
    ensures HostIn(fold, (lead + word + gap) + [COLON] + (pad + (host + port) + tail)) == Some(host)
  {
    hide ToLower, TrimSpace, IndexByte, HostIn;
    var val := host + port;
    HostSpelled(fold, lead, word, gap);
    HostLine(fold, lead + word + gap, pad, val, tail);
    BareIsTrimmed(val);
    if port != [] {
      assert val[..|host|] == host;
      FirstIndex(val, |host|, COLON);
    } else {
      assert val == host;
    }
  }

  /** The same with a bracketed host: it loses its brackets and whatever follows them. */
  lemma BracketedHostLineNames(fold: Fold, lead: bytes, word: bytes, gap: bytes, pad: bytes, addr: bytes,
                               port: bytes, tail: bytes)
    requires Blank(lead) && SpellsHost(word) && Blank(gap) && Blank(pad) && Blank(tail)
    requires addr != [] && CLOSE !in addr && Bare([OPEN] + addr + [CLOSE] + port)
    ensures HostIn(fold, (lead + word + gap) + [COLON] + (pad + ([OPEN] + addr + [CLOSE] + port) + tail)) == Some(addr)
  {
    hide ToLower, TrimSpace, IndexByte, HostIn;
    var val := [OPEN] + addr + [CLOSE] + port;
    HostSpelled(fold, lead, word, gap);
    HostLine(fold, lead + word + gap, pad, val, tail);
    BareIsTrimmed(val);
    assert val[..|addr| + 1] == [OPEN] + addr && val[1..|addr| + 1] == addr;
    FirstIndex(val, |addr| + 1, CLOSE);
  }

  lemma {:induction false} FirstIndex(b: bytes, i: nat, c: byte)
    requires i < |b| && b[i] == c && c !in b[..i]
    ensures IndexByte(b, c) == Some(i)
    decreases i
  {
    if i > 0 {
      assert b[0] == b[..i][0];
      assert b[1..][..i - 1] == b[..i][1..];
      FirstIndex(b[1..], i - 1, c);
    }
  }

  /** The part of a header line before its colon is white space around the name. */
  ghost predicate NamesHost(part: bytes)
  {
    exists i: nat :: i + 4 <= |part| && Blank(part[..i]) && SpellsHost(part[i..i + 4]) && Blank(part[i + 4..])
  }

  lemma NamesHostIs(fold: Fold, part: bytes)
    requires IsAscii(part)
    ensures NamesHost(part) <==> TrimSpace(ToLower(fold, part)) == HOST
  {
    hide TrimSpace;
    if i: nat :| i + 4 <= |part| && Blank(part[..i]) && SpellsHost(part[i..i + 4]) && Blank(part[i + 4..]) {
      HostSpelled(fold, part[..i], part[i..i + 4], part[i + 4..]);
      assert part == part[..i] + part[i..i + 4] + part[i + 4..];
    }
    if TrimSpace(ToLower(fold, part)) == HOST {
      TrimmedToHost(fold, part);
    }
  }

  lemma TrimmedToHost(fold: Fold, part: bytes)
    requires IsAscii(part) && TrimSpace(ToLower(fold, part)) == HOST
    ensures NamesHost(part)
  {
    hide TrimSpace, ToLower;
    var t := ToLower(fold, part);
    ToLowerAscii(fold, part);
    LowerIsAscii(fold, part);
    var i, j := AsciiTrim(t);
    assert j == i + 4;
    assert forall k :: 0 <= k < 4 ==> t[i..j][k] == t[i + k];
    assert forall k :: 0 <= k < i ==> t[..i][k] == t[k] && part[..i][k] == part[k];
    assert forall k :: 0 <= k < |part| - j ==> t[j..][k] == t[j + k] && part[j..][k] == part[j + k];
    assert SpellsHost(part[i..i + 4]);
  }

  lemma LowerIsAscii(fold: Fold, s: bytes)
    requires IsAscii(s)
    ensures IsAscii(ToLower(fold, s))
  {
    ToLowerAscii(fold, s);
    assert forall i :: 0 <= i < |s| ==> s[i] in s;
  }

  /** A line names a host if and only if it has the name Host before its first colon and a value behind it. */
  lemma HostInDecided(fold: Fold, part: bytes, val: bytes)
    requires IsAscii(part) && COLON !in part
    ensures HostIn(fold, part + [COLON] + val).Some? <==> NamesHost(part) && !AllSpace(val)
  {
    hide TrimSpace, IndexByte, ToLower, NamesHost, AllSpace, NormalizeHostHeader;
    var line := part + [COLON] + val;
    assert line[..|part|] == part && line[|part| + 1..] == val;
    FirstIndex(line, |part|, COLON);
    NamesHostIs(fold, part);
    AllSpaceIs(val);
    if part == [] {
      NoNameInNothing();
    }
  }

  lemma NoNameInNothing()
    ensures !NamesHost([])
  {
  }

  /** No Host line: no colon, another name in front of the first colon, or no value behind it. */
  ghost predicate OtherLine(line: bytes)
  {
    COLON in line ==>
      exists c: nat :: c < |line| && line[c] == COLON && COLON !in line[..c] && IsAscii(line[..c])
                       && (!NamesHost(line[..c]) || AllSpace(line[c + 1..]))
  }

  lemma OtherLineNamesNone(fold: Fold, line: bytes)
    requires OtherLine(line)
    ensures HostIn(fold, line).None?
  {
    hide HostIn, NamesHost, AllSpace, IsAscii;
    if COLON in line {
      var c: nat :| c < |line| && line[c] == COLON && COLON !in line[..c] && IsAscii(line[..c])
                    && (!NamesHost(line[..c]) || AllSpace(line[c + 1..]));
      OtherNameNamesNone(fold, line, c);
    } else {
      NoColonNoHost(fold, line);
    }
  }

  lemma OtherNameNamesNone(fold: Fold, line: bytes, c: nat)
    requires c < |line| && line[c] == COLON && COLON !in line[..c] && IsAscii(line[..c])
    requires !NamesHost(line[..c]) || AllSpace(line[c + 1..])
    ensures HostIn(fold, line).None?
  {
    hide HostIn, NamesHost, AllSpace, IsAscii;
    var part, val := line[..c], line[c + 1..];
    HostInDecided(fold, part, val);
    assert line == part + [COLON] + val;
  }

  lemma NoColonNoHost(fold: Fold, line: bytes)
    requires COLON !in line
    ensures HostIn(fold, line).None?
  {
    hide IndexByte;
  }

  /** The value of a Host line: a host with a port or none, a bracketed one, or a bracket that is not closed. */
  datatype Target = Named(host: bytes, port: bytes) | Bracketed(addr: bytes, behind: bytes) | Unclosed(more: bytes)

  ghost predicate ValidTarget(t: Target)
  {
    match t
    case Named(host, port) =>
      && 0x3A !in host && (host == [] || host[0] != 0x5B) && (port == [] || port[0] == 0x3A) && host + port != []
    case Bracketed(addr, _) => 0x5D !in addr
    case Unclosed(more) => 0x5D !in more
  }

  ghost function ValueText(t: Target): (val: bytes)
  {
    match t
    case Named(host, port) => host + port
    case Bracketed(addr, behind) => [0x5B] + addr + [0x5D] + behind
    case Unclosed(more) => [0x5B] + more
  }

  /** The host to show: `?` when it is empty or its bracket is not closed. */
  ghost function HostOf(t: Target): (host: bytes)
  {
    match t
    case Named(host, _) => if host == [] then [0x3F] else host
    case Bracketed(addr, _) => if addr == [] then [0x3F] else addr
    case Unclosed(_) => [0x3F]
  }

  lemma EveryValueHasTarget(val: bytes) returns (t: Target)
    requires val != []
    ensures ValidTarget(t) && ValueText(t) == val
  {
    hide IndexByte, ValidTarget, ValueText;
    if val[0] == 0x5B {
      match IndexByte(val, 0x5D) {
        case Some(i) =>
          BracketedTarget(val, i);
          t := Bracketed(val[1..i], val[i + 1..]);
        case None =>
          UnclosedTarget(val);
          t := Unclosed(val[1..]);
      }
    } else {
      match IndexByte(val, 0x3A) {
        case Some(i) =>
          NamedTarget(val[..i], val[i..]);
          t := Named(val[..i], val[i..]);
          assert val[..i] + val[i..] == val;
        case None =>
          NamedTarget(val, []);
          t := Named(val, []);
          assert val + [] == val;
      }
    }
  }

  lemma BracketedTarget(val: bytes, i: nat)
    requires 0 < i < |val| && val[0] == 0x5B && val[i] == 0x5D && 0x5D !in val[..i]
    ensures var t := Bracketed(val[1..i], val[i + 1..]); ValidTarget(t) && ValueText(t) == val
  {
    assert forall c :: c in val[1..i] ==> c in val[..i];
  }

  lemma UnclosedTarget(val: bytes)
    requires val != [] && val[0] == 0x5B && 0x5D !in val
    ensures ValidTarget(Unclosed(val[1..])) && ValueText(Unclosed(val[1..])) == val
  {
  }

  lemma NamedTarget(host: bytes, port: bytes)
    requires 0x3A !in host && (host == [] || host[0] != 0x5B) && (port == [] || port[0] == 0x3A) && host + port != []
    ensures ValidTarget(Named(host, port)) && ValueText(Named(host, port)) == host + port
  {
  }

  lemma TargetNames(t: Target)
    requires ValidTarget(t) && Bare(ValueText(t))
    ensures Shown(Some(NormalizeHostHeader(ValueText(t)))) == HostOf(t)
  {
    hide Bare, NormalizeHostHeader;
    match t
    case Named(host, port) => NamedShown(host, port);
    case Bracketed(addr, behind) => BracketedShown(addr, behind);
    case Unclosed(more) => UnclosedShown(more);
  }

  lemma NamedShown(host: bytes, port: bytes)
    requires ValidTarget(Named(host, port)) && Bare(host + port)
    ensures NormalizeHostHeader(host + port) == host
  {
    hide TrimSpace, IndexByte, Bare;
    var val := host + port;
    BareIsTrimmed(val);
    if port != [] {
      assert val[..|host|] == host;
      FirstIndex(val, |host|, COLON);
    } else {
      assert val == host;
    }
  }

  lemma BracketedShown(addr: bytes, behind: bytes)
    requires CLOSE !in addr && Bare([OPEN] + addr + [CLOSE] + behind)
    ensures NormalizeHostHeader([OPEN] + addr + [CLOSE] + behind) == if addr == [] then UNKNOWN else addr
  {
    hide TrimSpace, IndexByte, Bare;
    var val := [OPEN] + addr + [CLOSE] + behind;
    BareIsTrimmed(val);
    assert val[..|addr| + 1] == [OPEN] + addr && val[1..|addr| + 1] == addr;
    FirstIndex(val, |addr| + 1, CLOSE);
  }

  lemma UnclosedShown(more: bytes)
    requires CLOSE !in more && Bare([OPEN] + more)
    ensures NormalizeHostHeader([OPEN] + more) == UNKNOWN
  {
    hide TrimSpace, IndexByte, Bare;
    BareIsTrimmed([OPEN] + more);
    assert CLOSE !in [OPEN] + more;
  }

  /** A Host line, with its parts and the white space around them. */
  datatype Naming = Naming(lead: bytes, word: bytes, gap: bytes, pad: bytes, target: Target, tail: bytes)

  ghost predicate ValidNaming(n: Naming)
  {
    && Blank(n.lead) && SpellsHost(n.word) && Blank(n.gap) && Blank(n.pad) && Blank(n.tail)
    && ValidTarget(n.target) && Bare(ValueText(n.target))
  }

  ghost function NamingLine(n: Naming): (line: bytes)
  {
    (n.lead + n.word + n.gap) + [0x3A] + (n.pad + ValueText(n.target) + n.tail)
  }

  lemma SkipsOneLineEnd(b: bytes)
    requires b == [] || b[0] != LF
    ensures SkipEOL([CR, LF] + b) == b
  {
    assert ([CR, LF] + b)[2..] == b;
  }

  lemma {:induction false} LinesStart(lines: seq<bytes>, rest: bytes)
    requires (forall i :: 0 <= i < |lines| ==> LF !in lines[i]) && (rest == [] || rest[0] != LF)
    ensures Terminated(lines) + rest == [] || (Terminated(lines) + rest)[0] != LF
  {
    if lines != [] && lines[0] != [] {
      assert lines[0][0] in lines[0];
    }
  }

  /** Not one of the bytes that are skipped in front of a request. */
  ghost predicate Starts(b: bytes)
  {
    b != [] && b[0] !in {0x20, 0x09, 0x0D, 0x0A}
  }

  lemma StartsUntrimmed(b: bytes)
    requires Starts(b)
    ensures TrimBlank(b) == b
  {
  }

  lemma LineAndHeaders(fold: Fold, line: bytes, headers: bytes)
    requires LF !in line && Starts(line) && |line| + 2 + |headers| >= 8
    requires headers == [] || headers[0] != LF
    ensures Parse(fold, line + [CR, LF] + headers)
         == if |Fields(line)| >= 3 && Fields(line)[1] != [] && Fields(line)[1][0] == SLASH
            then Parsed(Fields(line)[0], Shown(FindHost(fold, headers)), Fields(line)[1])
            else Rejected
  {
    hide Fields, FindHost, LineEnd, SkipEOL, TrimBlank, Starts;
    var raw := line + [CR, LF] + headers;
    StartsMore(line, headers);
    StartsUntrimmed(raw);
    SplitsAtLine(line, headers);
    SkipsOneLineEnd(headers);
  }

  lemma StartsMore(line: bytes, headers: bytes)
    requires Starts(line)
    ensures Starts(line + [CR, LF] + headers)
  {
  }

  lemma SplitsAtLine(line: bytes, headers: bytes)
    requires LF !in line
    ensures var raw := line + [CR, LF] + headers;
            LineEnd(raw) == |line| && raw[..|line|] == line && raw[|line|..] == [CR, LF] + headers
  {
    hide IndexCRLF, IndexByte, TakeLine;
    NoCRLFWithoutLF(line);
    FirstLine(line, headers);
  }

  /** A request with its first line ended by CR LF: it takes three words or more, the second one a path. */
  lemma RequestDecided(fold: Fold, ps: seq<Piece>, tail: seq<bytes>, headers: bytes)
    requires ValidPieces(ps, tail) && LF !in Laid(ps, tail) && Starts(Laid(ps, tail))
    requires |Laid(ps, tail)| + 2 + |headers| >= 8 && (headers == [] || headers[0] != LF)
    ensures Parse(fold, Laid(ps, tail) + [CR, LF] + headers)
         == if |ps| >= 3 && ps[1].word != [] && ps[1].word[0] == 0x2F
            then Parsed(ps[0].word, Shown(FindHost(fold, headers)), ps[1].word)
            else Rejected
  {
    hide ValidPieces, Laid, Starts, Parse, Fields, FindHost, Shown;
    FieldsAre(ps, tail);
    LineAndHeaders(fold, Laid(ps, tail), headers);
  }

  /** A request line: three words, the second a path, white space between them. */
  datatype RequestLine = RequestLine(verb: bytes, gap: bytes, path: bytes, gap': bytes, version: bytes)

  ghost predicate ValidRequestLine(q: RequestLine)
  {
    && Solid(q.verb) && Solid(q.path) && Solid(q.version) && q.path[0] == 0x2F
    && q.gap != [] && Blank(q.gap) && q.gap' != [] && Blank(q.gap')
    && LF !in LineOf(q)
  }

  ghost function LineOf(q: RequestLine): (line: bytes)
  {
    q.verb + q.gap + (q.path + q.gap' + q.version)
  }

  lemma LineOfFields(q: RequestLine)
    requires ValidRequestLine(q)
    ensures var line := LineOf(q);
            |Fields(line)| >= 3 && Fields(line)[0] == q.verb && Fields(line)[1] == q.path && Starts(line)
  {
    hide Fields;
    RequestLineWords(q.verb, q.gap, q.path, q.gap', q.version);
    assert q.verb[0..] == q.verb;
  }

  /** A well-formed request gives its method, its path and the host of its first Host line. */
  lemma RequestRoundTrip(fold: Fold, q: RequestLine, lines: seq<bytes>, n: Naming, rest: bytes)
    requires ValidRequestLine(q) && ValidNaming(n) && LF !in NamingLine(n)
    requires forall i :: 0 <= i < |lines| ==> LF !in lines[i] && OtherLine(lines[i])
    ensures Parse(fold, LineOf(q) + [CR, LF] + (Terminated(lines) + (NamingLine(n) + [CR, LF] + rest)))
         == Parsed(q.verb, HostOf(n.target), q.path)
  {
    hide Fields, FindHost, HostIn, Terminated, Parse, OtherLine, LineOf, NamingLine, ValidRequestLine;
    var hostLine := NamingLine(n);
    var headers := Terminated(lines) + (hostLine + [CR, LF] + rest);
    NamingNames(fold, n);
    forall i | 0 <= i < |lines|
      ensures HostIn(fold, lines[i]).None?
    {
      OtherLineNamesNone(fold, lines[i]);
    }
    HostAfterOtherLines(fold, lines, hostLine, rest);
    assert headers == Terminated(lines) + hostLine + [CR, LF] + rest;
    assert hostLine != [] ==> hostLine[0] in hostLine;
    LinesStart(lines, hostLine + [CR, LF] + rest);
    LineOfFields(q);
    ValidLine(q);
    LineAndHeaders(fold, LineOf(q), headers);
  }

  lemma ValidLine(q: RequestLine)
    requires ValidRequestLine(q)
    ensures LF !in LineOf(q) && |LineOf(q)| >= 5 && q.path != [] && q.path[0] == SLASH
  {
  }

  lemma NamingNames(fold: Fold, n: Naming)
    requires ValidNaming(n)
    ensures HostIn(fold, NamingLine(n)).Some? && Shown(HostIn(fold, NamingLine(n))) == HostOf(n.target)
    ensures |NamingLine(n)| >= 6
  {
    hide HostIn, NormalizeHostHeader, ValidTarget, HostOf, Bare, ToLower, TrimSpace;
    HostSpelled(fold, n.lead, n.word, n.gap);
    HostLine(fold, n.lead + n.word + n.gap, n.pad, ValueText(n.target), n.tail);
    TargetNames(n.target);
    assert ValueText(n.target) != [] by { TargetHasText(n.target); }
  }

  lemma TargetHasText(t: Target)
    requires ValidTarget(t)
    ensures ValueText(t) != []
  {
  }

  /** Without a Host line, and with nothing but an unended fragment behind the lines, the host is `?`. */
  lemma RequestWithoutHost(fold: Fold, q: RequestLine, lines: seq<bytes>, rest: bytes)
    requires ValidRequestLine(q) && LF !in rest && |LineOf(q)| + 2 + |Terminated(lines) + rest| >= 8
    requires forall i :: 0 <= i < |lines| ==> LF !in lines[i] && OtherLine(lines[i])
    ensures Parse(fold, LineOf(q) + [CR, LF] + (Terminated(lines) + rest)) == Parsed(q.verb, [0x3F], q.path)
  {
    hide Fields, FindHost, HostIn, Terminated, Parse, OtherLine, LineOf, ValidRequestLine;
    forall i | 0 <= i < |lines|
      ensures HostIn(fold, lines[i]).None?
    {
      OtherLineNamesNone(fold, lines[i]);
    }
    NoHostInLines(fold, lines, rest);
    assert rest != [] ==> rest[0] in rest;
    LinesStart(lines, rest);
    LineOfFields(q);
    ValidLine(q);
    LineAndHeaders(fold, LineOf(q), Terminated(lines) + rest);
  }

  lemma {:induction false} NoHostInLines(fold: Fold, lines: seq<bytes>, rest: bytes)
    requires forall i :: 0 <= i < |lines| ==> LF !in lines[i] && HostIn(fold, lines[i]).None?
    requires LF !in rest
    ensures FindHost(fold, Terminated(lines) + rest) == None
    decreases |lines|
  {
    hide TakeLine, HostIn;
    if lines == [] {
      assert Terminated(lines) + rest == rest;
      UnendedFragment(rest);
    } else {
      var more := Terminated(lines[1..]) + rest;
      assert Terminated(lines) + rest == lines[0] + [CR, LF] + more;
      NoCRLFWithoutLF(lines[0]);
      FirstLine(lines[0], more);
      NoHostInLines(fold, lines[1..], rest);
    }
  }

  lemma UnendedFragment(b: bytes)
    requires LF !in b
    ensures TakeLine(b).None?
  {
    hide IndexCRLF, IndexByte;
    NoCRLFWithoutLF(b);
  }

  /** Spaces, tabs and line ends in front of a request do not matter. */
  lemma {:induction false} LeadingBlanks(fold: Fold, lead: bytes, q: bytes)
    requires forall i :: 0 <= i < |lead| ==> lead[i] in {0x20, 0x09, 0x0D, 0x0A}
    requires q == [] || Starts(q)
    ensures Parse(fold, lead + q) == ParseTrimmed(fold, q)
  {
    hide ParseTrimmed;
    if lead == [] {
      assert lead + q == q;
    } else {
      LeadingBlanks(fold, lead[1..], q);
      assert (lead + q)[1..] == lead[1..] + q;
    }
  }

  /** Under 8 bytes there is no request; of a line without its end, at most 256 bytes are looked at. */
  lemma ShortAndUnended(fold: Fold, q: bytes)
    ensures |q| < 8 ==> ParseTrimmed(fold, q) == Rejected
    ensures |q| >= 8 && LF !in q ==>
            var parts := Fields(if |q| > 256 then q[..256] else q);
            ParseTrimmed(fold, q) == if |parts| >= 3 && parts[1] != [] && parts[1][0] == SLASH
                                     then Parsed(parts[0], [0x3F], parts[1]) else Rejected
  {
    hide Fields, FindHost, SkipEOL, IndexByte, IndexCRLF;
    if |q| >= 8 && LF !in q {
      NoCRLFWithoutLF(q);
      NoHostInCutLine(fold, q, LineEnd(q));
      assert |q| <= 256 ==> q[..|q|] == q;
    }
  }

  // ---------- A host on a line that ends with a bare LF ----------

  /** A request without CR whose request line ends with LF. */
  lemma BareRequest(fold: Fold, line: bytes, headers: bytes)
    requires LF !in line && CR !in line && CR !in headers && |line| >= 5 && 0x20 < line[0]
    requires |Fields(line)| >= 3 && Fields(line)[1] != [] && Fields(line)[1][0] == SLASH
    requires |headers| >= 2
    ensures var raw := line + [LF] + headers;
            && TrimBlank(raw) == raw && IndexCRLF(raw).None?
            && Parse(fold, raw) == Parsed(Fields(line)[0], Shown(FindHost(fold, headers)), Fields(line)[1])
  {
    hide Fields, FindHost, IndexCRLF, IndexByte;
    var raw := line + [LF] + headers;
    assert CR !in raw;
    CRLFNeedsCR(raw);
    assert raw[..|line|] == line && raw[|line|..] == [LF] + headers && ([LF] + headers)[1..] == headers;
    FirstIndex(raw, |line|, LF);
  }

  lemma CRLFNeedsCR(b: bytes)
    ensures IndexCRLF(b).Some? ==> CR in b
  {
    hide IndexCRLF;
    if IndexCRLF(b).Some? {
      assert b[IndexCRLF(b).value] in b;
    }
  }

  /** "GET / H", LF, "Host:a", LF. */
  const BARE_REQUEST: bytes :=
    [0x47, 0x45, 0x54, 0x20, SLASH, 0x20, 0x48, LF, 0x48, 0x6F, 0x73, 0x74, COLON, 0x61, LF]

  /** It parses with host `a`; followed by CR LF, the same bytes name no host. */
  lemma BareHostExample(fold: Fold)
    ensures Parse(fold, BARE_REQUEST) == Parsed([0x47, 0x45, 0x54], [0x61], [SLASH])
    ensures Parse(fold, BARE_REQUEST + [CR, LF]) == Parsed([0x47, 0x45, 0x54], [0x3F], [SLASH])
    ensures !Reliable(fold, TrimBlank(BARE_REQUEST))
  {
    hide Fields, FindHost, IndexCRLF, IndexByte, ParseTrimmed, HostIn, TrimBlank, Reliable;
    var verb, path, version: bytes := [0x47, 0x45, 0x54], [SLASH], [0x48];
    var hostLine := [0x48, 0x6F, 0x73, 0x74, COLON, 0x61];
    var line := verb + [SPACE] + (path + [SPACE] + version);
    assert BARE_REQUEST == line + [LF] + (hostLine + [LF]);
    PlainIsSolid(verb);
    PlainIsSolid(path);
    PlainIsSolid(version);
    RequestLineWords(verb, [SPACE], path, [SPACE], version);
    ExampleHost(fold, hostLine);
    BareRequest(fold, line, hostLine + [LF]);
    TrimBlankAppend(BARE_REQUEST, [CR, LF]);
    BareHostIsTakenBack(fold, BARE_REQUEST);
    TruncationDecided(fold, BARE_REQUEST);
    assert BARE_REQUEST <= BARE_REQUEST + [CR, LF];
  }

  lemma ExampleHost(fold: Fold, hostLine: bytes)
    requires hostLine == [0x48, 0x6F, 0x73, 0x74, COLON, 0x61]
    ensures FindHost(fold, hostLine + [LF]) == Some([0x61])
  {
    hide HostIn, IndexCRLF, IndexByte, TakeLine;
    assert CR !in hostLine + [LF];
    CRLFNeedsCR(hostLine + [LF]);
    assert hostLine + [LF] == hostLine + [LF] + [];
    FirstBareLine(hostLine, []);
    ExampleHostLine(fold, hostLine);
  }

  lemma ExampleHostLine(fold: Fold, hostLine: bytes)
    requires hostLine == [0x48, 0x6F, 0x73, 0x74, COLON, 0x61]
    ensures HostIn(fold, hostLine) == Some([0x61])
  {
    hide HostIn, SpaceWidth, SpaceTail;
    var word, host: bytes := [0x48, 0x6F, 0x73, 0x74], [0x61];
    TrimPlain(host);
    assert host + [] == host;
    HostLineNames(fold, [], word, [], [], host, [], []);
    assert ([] + word + []) + [COLON] + ([] + (host + []) + []) == hostLine;
  }
}
