/**
 * The TLS ClientHello server-name parser. It reads a record that may be cut short anywhere
 * (section 5.1 of RFC 8446 for the record, section 4.1.2 of RFC 8446 for ClientHello, section 3 of
 * RFC 6066 for server_name), so each declared length is clamped to the bytes at hand.
 */
module ClientHello {
  import opened Bytes

  // ---------- The parser, as a function of the buffer ----------

  /** One server_name extension body. */
  function NameInBlock(fold: Fold, block: bytes): (r: Option<bytes>)
  {
    if |block| < 2 || U16(block, 0) < 3 || 2 + U16(block, 0) > |block| then None else
    var list := block[2..2 + U16(block, 0)];
    if list[0] != 0 || U16(list, 1) == 0 || 3 + U16(list, 1) > |list| then None else
    var raw := ToLower(fold, TrimSpace(list[3..3 + U16(list, 1)]));
    if raw == [] || |raw| > 255 then None else Some(raw)
  }

  /** The first server_name extension of a possibly truncated extension list decides. */
  function NameInExtensions(fold: Fold, ext: bytes): (r: Option<bytes>)
    decreases |ext|
  {
    if |ext| < 4 || 4 + U16(ext, 2) > |ext| then None
    else if U16(ext, 0) != 0 then NameInExtensions(fold, ext[4 + U16(ext, 2)..])
    else NameInBlock(fold, ext[4..4 + U16(ext, 2)])
  }

  /** The extension bytes of a ClientHello body, clamped to the body; None when they are out of reach. */
  function ExtensionBytes(ch: bytes): (r: Option<bytes>)
  {
    if 34 >= |ch| then None else
    var i := 35 + U8(ch, 34);
    if i + 2 > |ch| then None else
    var j := i + 2 + U16(ch, i);
    if j >= |ch| then None else
    var k := j + 1 + U8(ch, j);
    if k + 2 > |ch| || U16(ch, k) == 0 then None else
    Some(ch[k + 2..Min(k + 2 + U16(ch, k), |ch|)])
  }

  /** The ClientHello body of a handshake record, both clamped to the buffer. */
  function HelloBody(b: bytes): (r: Option<bytes>)
  {
    if |b| < 43 || b[0] != 0x16 || !(0x0301 <= U16(b, 1) <= 0x0304) || U16(b, 3) < 38 then None else
    var hs := b[5..Min(5 + U16(b, 3), |b|)];
    if hs[0] != 1 || U24(hs, 1) < 34 then None else
    Some(hs[4..Min(4 + U24(hs, 1), |hs|)])
  }

  function Sni(fold: Fold, b: bytes): (r: Option<bytes>)
  {
    match HelloBody(b)
    case None => None
    case Some(ch) =>
      match ExtensionBytes(ch)
      case None => None
      case Some(ext) => NameInExtensions(fold, ext)
  }

  // ---------- The parser as the source runs it ----------

  method ScanServerNameList(fold: Fold, extensions: bytes) returns (sni: bytes, ok: bool)
    ensures NameInExtensions(fold, extensions) == if ok then Some(sni) else None
  {
    hide U16, ToLower, TrimSpace;
    var ext := extensions;
    while |ext| >= 4
      invariant NameInExtensions(fold, extensions) == NameInExtensions(fold, ext)
      decreases |ext|
    {
      var typ := U16(ext, 0);
      var ln := U16(ext, 2);
      if 4 + ln > |ext| {
        return [], false;
      }
      var block := ext[4..4 + ln];
      if typ != 0 {
        ext := ext[4 + ln..];
        continue;
      }
      if |block| < 2 {
        return [], false;
      }
      var listLen := U16(block, 0);
      if listLen < 3 || 2 + listLen > |block| {
        return [], false;
      }
      var list := block[2..2 + listLen];
      if |list| < 3 || list[0] != 0 {
        return [], false;
      }
      var nameLen := U16(list, 1);
      if nameLen <= 0 || 3 + nameLen > |list| {
        return [], false;
      }
      var raw := ToLower(fold, TrimSpace(list[3..3 + nameLen]));
      if raw == [] || |raw| > 255 {
        return [], false;
      }
      return raw, true;
    }
    return [], false;
  }

  /** The walk over the fields of the ClientHello body up to its extensions. */
  method FindExtensions(ch: bytes) returns (ext: bytes, ok: bool)
    ensures ExtensionBytes(ch) == if ok then Some(ext) else None
  {
    hide U16;
    var i := 34;
    if i >= |ch| {
      return [], false;
    }
    var sidLen := U8(ch, i);
    i := i + 1;
    if i + sidLen > |ch| {
      return [], false;
    }
    i := i + sidLen;
    if i + 2 > |ch| {
      return [], false;
    }
    var csLen := U16(ch, i);
    i := i + 2;
    if i + csLen > |ch| {
      return [], false;
    }
    i := i + csLen;
    if i >= |ch| {
      return [], false;
    }
    var compLen := U8(ch, i);
    i := i + 1;
    if i + compLen > |ch| {
      return [], false;
    }
    i := i + compLen;
    if i + 2 > |ch| {
      return [], false;
    }
    var extLen := U16(ch, i);
    i := i + 2;
    if extLen == 0 {
      return [], false;
    }
    var extEnd := i + extLen;
    if extEnd > |ch| {
      extEnd := |ch|;
    }
    return ch[i..extEnd], true;
  }

  method ParseClientHelloSNI(fold: Fold, b: bytes) returns (sni: bytes, ok: bool)
    ensures Sni(fold, b) == if ok then Some(sni) else None
  {
    hide NameInExtensions, ExtensionBytes, U16, U24;
    if |b| < 43 || b[0] != 0x16 {
      return [], false;
    }
    var ver := U16(b, 1);
    if ver < 0x0301 || ver > 0x0304 {
      return [], false;
    }
    var recLen := U16(b, 3);
    if recLen < 38 {
      return [], false;
    }
    var hsEnd := 5 + recLen;
    if hsEnd > |b| {
      hsEnd := |b|;
    }
    var hs: bytes := b[5..hsEnd];
    if |hs| < 4 || hs[0] != 1 {
      return [], false;
    }
    var chLen := U24(hs, 1);
    if chLen < 34 {
      return [], false;
    }
    var chEnd := 4 + chLen;
    if chEnd > |hs| {
      chEnd := |hs|;
    }
    var ch: bytes := hs[4..chEnd];
    assert HelloBody(b) == Some(ch);
    var ext, found := FindExtensions(ch);
    if !found {
      return [], false;
    }
    sni, ok := ScanServerNameList(fold, ext);
  }

  // ---------- The wire format, as an encoder ----------

  datatype Extension = Extension(typ: nat, data: bytes)

  /** The host name with whatever the sender put after it in the name list and in the extension. */
  datatype ServerName = ServerName(host: bytes, moreNames: bytes, padding: bytes)

  /**
   * A ClientHello up to the end of its server_name extension. `recLen`, `chLen` and `extLen` are the
   * lengths it declares for the record, the handshake body and the extension block.
   */
  datatype Hello = Hello(version: nat, recLen: nat, chLen: nat, preamble: bytes, session: bytes,
                         ciphers: bytes, compressions: bytes, extLen: nat,
                         before: seq<Extension>, name: ServerName)

  ghost predicate ValidExtension(e: Extension)
  {
    0 < e.typ < 0x1_0000 && |e.data| < 0x1_0000
  }

  ghost predicate ValidName(fold: Fold, n: ServerName)
  {
    && n.host != []
    && 5 + |n.host| + |n.moreNames| + |n.padding| < 0x1_0000
    && 0 < |ToLower(fold, TrimSpace(n.host))| <= 255
  }

  ghost function EncodeExtension(typ: nat, data: bytes): (b: bytes)
    requires typ < 0x1_0000 && |data| < 0x1_0000
    ensures |b| == 4 + |data|
  {
    PutU16(typ) + Vec16(data)
  }

  ghost function EncodeName(n: ServerName): (b: bytes)
    requires 5 + |n.host| + |n.moreNames| + |n.padding| < 0x1_0000
    ensures |b| == 5 + |n.host| + |n.moreNames| + |n.padding|
  {
    PutU16(3 + |n.host| + |n.moreNames|) + ([0] + (Vec16(n.host) + (n.moreNames + n.padding)))
  }

  ghost function EncodeExtensions(before: seq<Extension>, n: ServerName): (b: bytes)
    requires forall e :: e in before ==> ValidExtension(e)
    requires 5 + |n.host| + |n.moreNames| + |n.padding| < 0x1_0000
    ensures |b| >= 4
  {
    if before == [] then EncodeExtension(0, EncodeName(n))
    else
      assert ValidExtension(before[0]);
      EncodeExtension(before[0].typ, before[0].data) + EncodeExtensions(before[1..], n)
  }

  ghost predicate FieldsFit(fold: Fold, h: Hello)
  {
    && 0x0301 <= h.version <= 0x0304
    && h.recLen < 0x1_0000 && h.chLen < 0x100_0000 && h.extLen < 0x1_0000
    && |h.preamble| == 34 && |h.session| < 0x100 && |h.ciphers| < 0x1_0000 && |h.compressions| < 0x100
    && (forall e :: e in h.before ==> ValidExtension(e))
    && ValidName(fold, h.name)
  }

  ghost function EncodeBody(fold: Fold, h: Hello): (b: bytes)
    requires FieldsFit(fold, h)
    ensures |b| >= 44
  {
    h.preamble + (Vec8(h.session) + (Vec16(h.ciphers) + (Vec8(h.compressions) +
    (PutU16(h.extLen) + EncodeExtensions(h.before, h.name)))))
  }

  ghost function Encode(fold: Fold, h: Hello): (b: bytes)
    requires FieldsFit(fold, h)
    ensures |b| == 9 + |EncodeBody(fold, h)|
  {
    [0x16] + (PutU16(h.version) + (PutU16(h.recLen) + ([1] + (PutU24(h.chLen) + EncodeBody(fold, h)))))
  }

  /** Every field fits its wire width and no declared length ends before the server_name does. */
  ghost predicate Valid(fold: Fold, h: Hello)
  {
    && FieldsFit(fold, h)
    && h.recLen >= 4 + |EncodeBody(fold, h)|
    && h.chLen >= |EncodeBody(fold, h)|
    && h.extLen >= |EncodeExtensions(h.before, h.name)|
  }

  // ---------- The parser accepts exactly the encoder's prefixes ----------

  lemma EncodeNameAt(b: bytes, i: nat, n: ServerName)
    requires 5 + |n.host| + |n.moreNames| + |n.padding| < 0x1_0000
    ensures At(b, i, EncodeName(n)) <==>
            && i + 5 <= |b| && U16(b, i) == 3 + |n.host| + |n.moreNames| && b[i + 2] == 0
            && U16(b, i + 3) == |n.host| && At(b, i + 5, n.host)
            && At(b, i + 5 + |n.host|, n.moreNames) && At(b, i + 5 + |n.host| + |n.moreNames|, n.padding)
  {
    hide At;
    var r1 := n.moreNames + n.padding;
    var r2 := Vec16(n.host) + r1;
    var r3 := [0] + r2;
    AtConcat(b, i, PutU16(3 + |n.host| + |n.moreNames|), r3);
    AtU16(b, i, 3 + |n.host| + |n.moreNames|);
    AtConcat(b, i + 2, [0], r2);
    AtByte(b, i + 2, 0);
    AtConcat(b, i + 3, Vec16(n.host), r1);
    AtVec16(b, i + 3, n.host);
    AtConcat(b, i + 5 + |n.host|, n.moreNames, n.padding);
  }

  /** `NameInBlock` without the intermediate slice: every field read straight from the block. */
  lemma NameInBlockFlat(fold: Fold, block: bytes)
    ensures NameInBlock(fold, block) ==
            if |block| < 5 || U16(block, 0) < 3 || 2 + U16(block, 0) > |block| || block[2] != 0
               || U16(block, 3) == 0 || 3 + U16(block, 3) > U16(block, 0)
            then None
            else
              var raw := ToLower(fold, TrimSpace(block[5..5 + U16(block, 3)]));
              if raw == [] || |raw| > 255 then None else Some(raw)
  {
    hide ToLower, TrimSpace, U16;
    if |block| >= 5 && 3 <= U16(block, 0) && 2 + U16(block, 0) <= |block| {
      U16InSlice(block, 2, 2 + U16(block, 0), 1);
      if 3 + U16(block, 3) <= U16(block, 0) {
        SliceOfSlice(block, 2, 2 + U16(block, 0), 3, 3 + U16(block, 3));
      }
    }
  }

  lemma NameInBlockComplete(fold: Fold, n: ServerName)
    requires ValidName(fold, n)
    ensures NameInBlock(fold, EncodeName(n)) == Some(ToLower(fold, TrimSpace(n.host)))
  {
    hide NameInBlock, ToLower, TrimSpace, U16, EncodeName;
    var block := EncodeName(n);
    assert At(block, 0, block);
    EncodeNameAt(block, 0, n);
    NameInBlockFlat(fold, block);
  }

  lemma NameInBlockSound(fold: Fold, block: bytes) returns (n: ServerName)
    requires NameInBlock(fold, block).Some? && |block| < 0x1_0000
    ensures ValidName(fold, n) && EncodeName(n) == block
    ensures NameInBlock(fold, block) == Some(ToLower(fold, TrimSpace(n.host)))
  {
    hide NameInBlock, ToLower, TrimSpace, U16, EncodeName;
    NameInBlockFlat(fold, block);
    var ll, nl := U16(block, 0), U16(block, 3);
    n := ServerName(block[5..5 + nl], block[5 + nl..2 + ll], block[2 + ll..]);
    EncodeNameAt(block, 0, n);
    assert EncodeName(n) == block[0..|block|];
  }

  lemma EncodeExtensionAt(b: bytes, i: nat, typ: nat, data: bytes)
    requires typ < 0x1_0000 && |data| < 0x1_0000
    ensures At(b, i, EncodeExtension(typ, data)) <==>
            && i + 4 + |data| <= |b| && U16(b, i) == typ && U16(b, i + 2) == |data|
            && b[i + 4..i + 4 + |data|] == data
  {
    AtConcat(b, i, PutU16(typ), Vec16(data));
    AtU16(b, i, typ);
    AtVec16(b, i + 2, data);
  }

  lemma {:induction false} NameInExtensionsComplete(fold: Fold, before: seq<Extension>, n: ServerName, ext: bytes)
    requires forall e :: e in before ==> ValidExtension(e)
    requires ValidName(fold, n)
    requires At(ext, 0, EncodeExtensions(before, n))
    ensures NameInExtensions(fold, ext) == Some(ToLower(fold, TrimSpace(n.host)))
    decreases |before|
  {
    hide At, NameInBlock, EncodeExtension, EncodeName, ToLower, TrimSpace, U16;
    if before == [] {
      EncodeExtensionAt(ext, 0, 0, EncodeName(n));
      NameInBlockComplete(fold, n);
    } else {
      assert ValidExtension(before[0]);
      var data := before[0].data;
      var rest := EncodeExtensions(before[1..], n);
      AtConcat(ext, 0, EncodeExtension(before[0].typ, data), rest);
      EncodeExtensionAt(ext, 0, before[0].typ, data);
      AtSuffix(ext, 4 + |data|, 0, rest);
      NameInExtensionsComplete(fold, before[1..], n, ext[4 + |data|..]);
    }
  }

  lemma {:induction false} NameInExtensionsSound(fold: Fold, ext: bytes)
    returns (before: seq<Extension>, n: ServerName)
    requires NameInExtensions(fold, ext).Some?
    ensures forall e :: e in before ==> ValidExtension(e)
    ensures ValidName(fold, n)
    ensures At(ext, 0, EncodeExtensions(before, n))
    ensures NameInExtensions(fold, ext) == Some(ToLower(fold, TrimSpace(n.host)))
    decreases |ext|
  {
    hide At, NameInBlock, EncodeExtension, EncodeName, ToLower, TrimSpace, U16;
    var typ, len := U16(ext, 0), U16(ext, 2);
    var data := ext[4..4 + len];
    EncodeExtensionAt(ext, 0, typ, data);
    if typ != 0 {
      var rest;
      rest, n := NameInExtensionsSound(fold, ext[4 + len..]);
      before := [Extension(typ, data)] + rest;
      assert before[1..] == rest;
      AtSuffix(ext, 4 + len, 0, EncodeExtensions(rest, n));
      AtConcat(ext, 0, EncodeExtension(typ, data), EncodeExtensions(rest, n));
    } else {
      n := NameInBlockSound(fold, data);
      before := [];
    }
  }

  lemma EncodeBodyAt(fold: Fold, h: Hello, b: bytes, i: nat)
    requires FieldsFit(fold, h)
    ensures var s := i + 35 + |h.session|;
            var c := s + 2 + |h.ciphers|;
            var x := c + 1 + |h.compressions|;
            At(b, i, EncodeBody(fold, h)) <==>
              && x + 2 <= |b|
              && b[i + 34] == |h.session| && U16(b, s) == |h.ciphers|
              && b[c] == |h.compressions| && U16(b, x) == h.extLen
              && At(b, i, h.preamble) && At(b, i + 35, h.session) && At(b, s + 2, h.ciphers)
              && At(b, c + 1, h.compressions) && At(b, x + 2, EncodeExtensions(h.before, h.name))
  {
    hide At, U16, PutU16, EncodeExtensions, ToLower, TrimSpace;
    var s := i + 35 + |h.session|;
    var c := s + 2 + |h.ciphers|;
    var x := c + 1 + |h.compressions|;
    var r1 := PutU16(h.extLen) + EncodeExtensions(h.before, h.name);
    var r2 := Vec8(h.compressions) + r1;
    var r3 := Vec16(h.ciphers) + r2;
    var r4 := Vec8(h.session) + r3;
    AtConcat(b, i, h.preamble, r4);
    AtConcat(b, i + 34, Vec8(h.session), r3);
    AtVec8(b, i + 34, h.session);
    AtConcat(b, s, Vec16(h.ciphers), r2);
    AtVec16(b, s, h.ciphers);
    AtConcat(b, c, Vec8(h.compressions), r1);
    AtVec8(b, c, h.compressions);
    AtConcat(b, x, PutU16(h.extLen), EncodeExtensions(h.before, h.name));
    AtU16(b, x, h.extLen);
  }

  lemma ExtensionBytesComplete(fold: Fold, h: Hello, ch: bytes)
    requires Valid(fold, h) && At(ch, 0, EncodeBody(fold, h))
    ensures ExtensionBytes(ch).Some?
    ensures At(ExtensionBytes(ch).value, 0, EncodeExtensions(h.before, h.name))
  {
    hide EncodeBody, EncodeExtensions, U16, ToLower, TrimSpace, At;
    EncodeBodyAt(fold, h, ch, 0);
    var k := 38 + |h.session| + |h.ciphers| + |h.compressions|;
    AtFits(ch, k + 2, EncodeExtensions(h.before, h.name));
    AtWindow(ch, k + 2, Min(k + 2 + h.extLen, |ch|), 0, EncodeExtensions(h.before, h.name));
  }

  lemma ExtensionBytesSound(fold: Fold, ch: bytes, before: seq<Extension>, n: ServerName)
    returns (h: Hello)
    requires ExtensionBytes(ch).Some?
    requires forall e :: e in before ==> ValidExtension(e)
    requires ValidName(fold, n)
    requires At(ExtensionBytes(ch).value, 0, EncodeExtensions(before, n))
    ensures FieldsFit(fold, h) && h.before == before && h.name == n
    ensures h.extLen >= |EncodeExtensions(before, n)|
    ensures At(ch, 0, EncodeBody(fold, h))
  {
    hide EncodeBody, EncodeExtensions, U16, ToLower, TrimSpace, At;
    var i := 35 + U8(ch, 34);
    var j := i + 2 + U16(ch, i);
    var k := j + 1 + U8(ch, j);
    h := Hello(0x0301, 0, 0, ch[0..34], ch[35..i], ch[i + 2..j], ch[j + 1..k], U16(ch, k), before, n);
    AtWindow(ch, k + 2, Min(k + 2 + h.extLen, |ch|), 0, EncodeExtensions(before, n));
    AtSlice(ch, 0, 34);
    AtSlice(ch, 35, i);
    AtSlice(ch, i + 2, j);
    AtSlice(ch, j + 1, k);
    AtFits(ExtensionBytes(ch).value, 0, EncodeExtensions(before, n));
    EncodeBodyAt(fold, h, ch, 0);
  }

  lemma RecordHeaderAt(b: bytes, version: nat, len: nat, rest: bytes)
    requires version < 0x1_0000 && len < 0x1_0000
    ensures At(b, 0, [0x16] + (PutU16(version) + (PutU16(len) + rest))) <==>
            5 <= |b| && b[0] == 0x16 && U16(b, 1) == version && U16(b, 3) == len && At(b, 5, rest)
  {
    hide At, U16, PutU16;
    AtConcat(b, 0, [0x16], PutU16(version) + (PutU16(len) + rest));
    AtByte(b, 0, 0x16);
    AtConcat(b, 1, PutU16(version), PutU16(len) + rest);
    AtU16(b, 1, version);
    AtConcat(b, 3, PutU16(len), rest);
    AtU16(b, 3, len);
  }

  lemma HandshakeHeaderAt(b: bytes, i: nat, len: nat, rest: bytes)
    requires len < 0x100_0000
    ensures At(b, i, [1] + (PutU24(len) + rest)) <==>
            i + 4 <= |b| && b[i] == 1 && U24(b, i + 1) == len && At(b, i + 4, rest)
  {
    hide At, U24, PutU24;
    AtConcat(b, i, [1], PutU24(len) + rest);
    AtByte(b, i, 1);
    AtConcat(b, i + 1, PutU24(len), rest);
    AtU24(b, i + 1, len);
  }

  lemma EncodeAt(fold: Fold, h: Hello, b: bytes)
    requires FieldsFit(fold, h)
    ensures At(b, 0, Encode(fold, h)) <==>
            && 9 <= |b| && b[0] == 0x16 && U16(b, 1) == h.version && U16(b, 3) == h.recLen
            && b[5] == 1 && U24(b, 6) == h.chLen && At(b, 9, EncodeBody(fold, h))
  {
    hide At, U16, U24, PutU16, PutU24, EncodeBody, ValidName, ValidExtension;
    var body := EncodeBody(fold, h);
    var handshake := [1] + (PutU24(h.chLen) + body);
    assert Encode(fold, h) == [0x16] + (PutU16(h.version) + (PutU16(h.recLen) + handshake));
    RecordHeaderAt(b, h.version, h.recLen, handshake);
    HandshakeHeaderAt(b, 5, h.chLen, body);
  }

  /** The body is the window of the buffer that the two declared lengths and the capture allow. */
  lemma HelloBodyWindow(b: bytes)
    requires HelloBody(b).Some?
    ensures |b| >= 43 && b[0] == 0x16 && 0x0301 <= U16(b, 1) <= 0x0304 && b[5] == 1
    ensures var end := Min(9 + U24(b, 6), Min(5 + U16(b, 3), |b|));
            9 <= end <= |b| && HelloBody(b).value == b[9..end]
  {
    hide U16, U24;
    var hs := b[5..Min(5 + U16(b, 3), |b|)];
    U24InSlice(b, 5, 5 + |hs|, 1);
    SliceOfSlice(b, 5, 5 + |hs|, 4, Min(4 + U24(hs, 1), |hs|));
  }

  lemma HelloBodyComplete(fold: Fold, h: Hello, b: bytes)
    requires Valid(fold, h) && At(b, 0, Encode(fold, h))
    ensures HelloBody(b).Some? && At(HelloBody(b).value, 0, EncodeBody(fold, h))
  {
    hide EncodeBody, EncodeExtensions, U16, U24, Encode, ToLower, TrimSpace;
    EncodeAt(fold, h, b);
    U24InSlice(b, 5, Min(5 + U16(b, 3), |b|), 1);
    HelloBodyWindow(b);
    AtWindow(b, 9, Min(9 + U24(b, 6), Min(5 + U16(b, 3), |b|)), 0, EncodeBody(fold, h));
  }

  lemma HelloBodySound(fold: Fold, b: bytes, inner: Hello) returns (h: Hello)
    requires HelloBody(b).Some?
    requires FieldsFit(fold, inner)
    requires inner.extLen >= |EncodeExtensions(inner.before, inner.name)|
    requires At(HelloBody(b).value, 0, EncodeBody(fold, inner))
    ensures Valid(fold, h) && h.name == inner.name && At(b, 0, Encode(fold, h))
  {
    HelloBodyWindow(b);
    h := inner.(version := U16(b, 1), recLen := U16(b, 3), chLen := U24(b, 6));
    AtWindow(b, 9, Min(9 + U24(b, 6), Min(5 + U16(b, 3), |b|)), 0, EncodeBody(fold, inner));
    assert EncodeBody(fold, h) == EncodeBody(fold, inner);
    EncodeAt(fold, h, b);
  }

  /** A hello whose encoding starts the buffer, and the host it names. */
  ghost predicate Announces(fold: Fold, b: bytes, host: bytes, h: Hello)
  {
    Valid(fold, h) && At(b, 0, Encode(fold, h)) && host == ToLower(fold, TrimSpace(h.name.host))
  }

  lemma SniComplete(fold: Fold, b: bytes, host: bytes, h: Hello)
    requires Announces(fold, b, host, h)
    ensures Sni(fold, b) == Some(host)
  {
    HelloBodyComplete(fold, h, b);
    var ch := HelloBody(b).value;
    ExtensionBytesComplete(fold, h, ch);
    NameInExtensionsComplete(fold, h.before, h.name, ExtensionBytes(ch).value);
  }

  lemma SniSound(fold: Fold, b: bytes) returns (h: Hello)
    requires Sni(fold, b).Some?
    ensures Announces(fold, b, Sni(fold, b).value, h)
  {
    var ch := HelloBody(b).value;
    var before, n := NameInExtensionsSound(fold, ExtensionBytes(ch).value);
    var inner := ExtensionBytesSound(fold, ch, before, n);
    h := HelloBodySound(fold, b, inner);
  }

  /**
   * The parser returns a host exactly when the buffer begins with the encoding of some ClientHello
   * that names it, whatever follows and wherever the capture ends after that.
   */
  lemma SniCharacterised(fold: Fold, b: bytes, host: bytes)
    ensures Sni(fold, b) == Some(host) <==> exists h :: Announces(fold, b, host, h)
  {
    if Sni(fold, b) == Some(host) {
      var h := SniSound(fold, b);
    }
    if h :| Announces(fold, b, host, h) {
      SniComplete(fold, b, host, h);
    }
  }

  /** Once a host is found, no further bytes can change or lose it. */
  lemma SniMonotone(fold: Fold, b: bytes, more: bytes)
    requires Sni(fold, b).Some? && b <= more
    ensures Sni(fold, more) == Sni(fold, b)
  {
    var h := SniSound(fold, b);
    assert Announces(fold, more, Sni(fold, b).value, h);
    SniComplete(fold, more, Sni(fold, b).value, h);
  }

  // ---------- Cutting a well-formed hello ----------

  lemma {:induction false} ExtensionsUnique(fold: Fold, b: bytes, i: nat, before: seq<Extension>, n: ServerName,
                                            before': seq<Extension>, n': ServerName)
    requires forall e :: e in before ==> ValidExtension(e)
    requires forall e :: e in before' ==> ValidExtension(e)
    requires ValidName(fold, n) && ValidName(fold, n')
    requires At(b, i, EncodeExtensions(before, n)) && At(b, i, EncodeExtensions(before', n'))
    ensures |EncodeExtensions(before, n)| == |EncodeExtensions(before', n')|
    decreases |before|
  {
    hide At, EncodeExtension, EncodeName, ToLower, TrimSpace, U16;
    ExtensionsHead(b, i, before, n);
    ExtensionsHead(b, i, before', n');
    if before != [] && before' != [] {
      ExtensionsUnique(fold, b, i + 4 + |before[0].data|, before[1..], n, before'[1..], n');
    }
  }

  lemma ExtensionsHead(b: bytes, i: nat, before: seq<Extension>, n: ServerName)
    requires forall e :: e in before ==> ValidExtension(e)
    requires 5 + |n.host| + |n.moreNames| + |n.padding| < 0x1_0000
    requires At(b, i, EncodeExtensions(before, n))
    ensures i + 4 <= |b|
    ensures before == [] ==> U16(b, i) == 0 && |EncodeExtensions(before, n)| == 4 + U16(b, i + 2)
    ensures before != [] ==>
            && ValidExtension(before[0]) && U16(b, i) == before[0].typ && U16(b, i + 2) == |before[0].data|
            && At(b, i + 4 + |before[0].data|, EncodeExtensions(before[1..], n))
            && |EncodeExtensions(before, n)| == 4 + |before[0].data| + |EncodeExtensions(before[1..], n)|
  {
    hide At, EncodeExtension, EncodeName, U16;
    if before == [] {
      EncodeExtensionAt(b, i, 0, EncodeName(n));
    } else {
      var e := before[0];
      assert ValidExtension(e);
      AtConcat(b, i, EncodeExtension(e.typ, e.data), EncodeExtensions(before[1..], n));
      EncodeExtensionAt(b, i, e.typ, e.data);
    }
  }

  /** Two hellos that start the same buffer end at the same byte. */
  lemma HelloUnique(fold: Fold, b: bytes, h: Hello, h': Hello)
    requires FieldsFit(fold, h) && FieldsFit(fold, h')
    requires At(b, 0, Encode(fold, h)) && At(b, 0, Encode(fold, h'))
    ensures |Encode(fold, h)| == |Encode(fold, h')|
  {
    hide At, EncodeExtensions, ToLower, TrimSpace, U16, U24;
    EncodeAt(fold, h, b);
    EncodeAt(fold, h', b);
    EncodeBodyAt(fold, h, b, 9);
    EncodeBodyAt(fold, h', b, 9);
    var i := 49 + |h.session| + |h.ciphers| + |h.compressions|;
    ExtensionsUnique(fold, b, i, h.before, h.name, h'.before, h'.name);
  }

  /** A complete record: its three declared lengths all end where the bytes after server_name end. */
  ghost predicate Complete(fold: Fold, h: Hello, after: bytes)
  {
    && FieldsFit(fold, h)
    && h.recLen == 4 + |EncodeBody(fold, h)| + |after|
    && h.chLen == |EncodeBody(fold, h)| + |after|
    && h.extLen == |EncodeExtensions(h.before, h.name)| + |after|
  }

  /** Parsing a capture of a complete ClientHello gives its host exactly when server_name was captured whole. */
  lemma RoundTrip(fold: Fold, h: Hello, after: bytes, cut: nat)
    requires Complete(fold, h, after)
    requires cut <= |Encode(fold, h) + after|
    ensures Sni(fold, (Encode(fold, h) + after)[..cut]) ==
            if |Encode(fold, h)| <= cut then Some(ToLower(fold, TrimSpace(h.name.host))) else None
  {
    hide Sni, EncodeBody, EncodeExtensions, ToLower, TrimSpace;
    var wire := Encode(fold, h) + after;
    var b := wire[..cut];
    AtConcat(wire, 0, Encode(fold, h), after);
    assert b == wire[0..cut];
    AtWindow(wire, 0, cut, 0, Encode(fold, h));
    if |Encode(fold, h)| <= cut {
      SniComplete(fold, b, ToLower(fold, TrimSpace(h.name.host)), h);
    } else if Sni(fold, b).Some? {
      var h' := SniSound(fold, b);
      AtWindow(wire, 0, cut, 0, Encode(fold, h'));
      HelloUnique(fold, wire, h, h');
      assert false;
    }
  }
}
