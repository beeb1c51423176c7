/**
 * Request framing and decoding (internal/ipc/request.go).
 *
 * A frame is a four-character hex length L that counts its own four bytes,
 * then L - 4 payload bytes, then the terminator "0000"; L = 0 is a flush
 * packet on its own. The payload is a 16-byte command key and the
 * little-endian fields of the command's request. Field layout of a GetOid
 * payload (offsets into the payload; binary.Read packs without padding):
 *
 *   0..15 key "oid" | 16..47 Hash | 48..51 HashAlgo | 52..55 Flags | 56 WantContent
 */
module IpcRequest {
  import opened Wrappers
  import opened Encoding
  import opened Connection
  import opened IpcTypes

  datatype GetOidRequest = GetOidRequest(oid: ObjectId, flags: uint32, wantContent: byte)

  /** The three results ReadRequest can succeed with. */
  datatype Request = EOF | FlushPacket | GetOid(get: GetOidRequest)

  datatype ReadError =
    | ShortPrefix          // one to three bytes before the end of the stream
    | BadPrefix            // the length is not four hex digits
    | LengthUnderflow      // a length of 1, 2 or 3, smaller than the prefix itself
    | ShortPayload         // fewer than L - 4 payload bytes
    | ShortTerminator      // fewer than four bytes after the payload
    | BadTerminator        // the four bytes after the payload are not "0000"
    | ShortKey             // a payload shorter than a key
    | UnknownCommand(key: string)
    | ShortBody            // a GetOid payload shorter than 57 bytes

  /** A request and the number of input bytes it took. */
  datatype Parsed = Parsed(req: Request, consumed: nat)

  const KeySize: nat := 16
  const GetOidBodySize: nat := 41

  function DecodeObjectId(b: seq<byte>): ObjectId
    requires |b| == 36
  {
    ObjectId(b[..32], DecodeI32(b[32..]))
  }

  function EncodeObjectId(oid: ObjectId): (b: seq<byte>)
    ensures |b| == 36 && DecodeObjectId(b) == oid
  {
    var b := oid.hash + EncodeI32(oid.hashAlgo);
    assert b[..32] == oid.hash && b[32..] == EncodeI32(oid.hashAlgo);
    b
  }

  /** binary.Read(reqBuf, binary.LittleEndian, &oidReq). */
  function DecodeGetOidBody(b: seq<byte>): GetOidRequest
    requires |b| == GetOidBodySize
  {
    GetOidRequest(DecodeObjectId(b[..36]), DecodeU32(b[36..40]), b[40])
  }

  /** Every 36 bytes are the encoding of the id they decode to. */
  lemma EncodeDecodeObjectId(b: seq<byte>)
    requires |b| == 36
    ensures EncodeObjectId(DecodeObjectId(b)) == b
  {
    EncodeDecodeI32(b[32..]);
  }

  /** The body a client sends: the inverse of DecodeGetOidBody. */
  function EncodeGetOidBody(r: GetOidRequest): (b: seq<byte>)
    ensures |b| == GetOidBodySize && DecodeGetOidBody(b) == r
  {
    var b := EncodeObjectId(r.oid) + EncodeU32(r.flags) + [r.wantContent];
    assert b[..36] == EncodeObjectId(r.oid);
    assert b[36..40] == EncodeU32(r.flags);
    b
  }

  /** The key, then the body of the command the key names. */
  function DecodePayload(p: seq<byte>): (r: Result<Request, ReadError>)
    ensures r.Ok? <==> |p| >= KeySize + GetOidBodySize && ToString(p[..KeySize]) == "oid"
    ensures r.Ok? ==> r.value.GetOid?
    ensures r == Err(ShortKey) <==> |p| < KeySize
  {
    if |p| < KeySize then Err(ShortKey)
    else
      var key := ToString(p[..KeySize]);
      if key != "oid" then Err(UnknownCommand(key))
      else if |p| - KeySize < GetOidBodySize then Err(ShortBody)
      else Ok(GetOid(DecodeGetOidBody(p[KeySize..KeySize + GetOidBodySize])))
  }

  /** Every 41 bytes are the encoding of the request they decode to, so no two bodies decode alike. */
  lemma EncodeDecodeGetOidBody(b: seq<byte>)
    requires |b| == GetOidBodySize
    ensures EncodeGetOidBody(DecodeGetOidBody(b)) == b
  {
    EncodeDecodeObjectId(b[..36]);
    EncodeDecodeU32(b[36..40]);
  }

  /** What ReadRequest makes of the unread input `s`. */
  function ParseRequest(s: seq<byte>): (r: Result<Parsed, ReadError>)
    ensures r.Ok? ==> r.value.consumed <= |s|
    ensures r.Ok? && r.value.req.EOF? ==> s == [] && r.value.consumed == 0
    ensures r.Ok? && !r.value.req.EOF? ==> r.value.consumed >= 4
  {
    if |s| == 0 then Ok(Parsed(EOF, 0))
    else if |s| < 4 then Err(ShortPrefix)
    else match ParseUint(StringOf(s[..4]))
      case None => Err(BadPrefix)
      case Some(size) =>
        if size == 0 then Ok(Parsed(FlushPacket, 4))
        else if size < 4 then Err(LengthUnderflow)
        else ParseFrame(s, size)
  }

  /** The rest of a frame whose prefix announced `size`: payload, terminator, then the payload's request. */
  function ParseFrame(s: seq<byte>, size: nat): (r: Result<Parsed, ReadError>)
    requires 4 <= size
    ensures r.Ok? ==> r.value.consumed == size + 4 <= |s|
  {
    if |s| < size then Err(ShortPayload)
    else if |s| < size + 4 then Err(ShortTerminator)
    else if s[size..size + 4] != FlushPkt then Err(BadTerminator)
    else match DecodePayload(s[4..size])
      case Err(e) => Err(e)
      case Ok(req) => Ok(Parsed(req, size + 4))
  }

  /**
   * ReadRequest(conn): reads one request from position `pos` of the input
   * and returns it with the position after it.
   */
  method ReadRequest(conn: seq<byte>, pos: nat) returns (res: Result<Request, ReadError>, next: nat)
    requires pos <= |conn|
    ensures pos <= next <= |conn|
    ensures res.Ok? ==> ParseRequest(conn[pos..]) == Ok(Parsed(res.value, next - pos))
    ensures res.Err? ==> ParseRequest(conn[pos..]) == Err(res.error)
  {
    ghost var s := conn[pos..];
    var pktLine := new byte[4];
    var n, status := ReadFull(conn, pos, pktLine);
    next := pos + n;
    if status == AtEof {
      return Ok(EOF), next;
    } else if status == Truncated {
      return Err(ShortPrefix), next;
    }
    assert pktLine[..] == pktLine[..n] == s[..4];

    var size := ParseUint(StringOf(pktLine[..]));
    if size.None? {
      return Err(BadPrefix), next;
    }
    var reqSize := size.value;
    if reqSize == 0 {
      return Ok(FlushPacket), next;
    }
    if reqSize < 4 {
      return Err(LengthUnderflow), next;
    }
    res, next := ReadFrame(conn, pos, reqSize);
  }

  /** ReadRequest after a prefix at `pos` announced `size`: the payload, the terminator, the payload's request. */
  method ReadFrame(conn: seq<byte>, pos: nat, size: nat) returns (res: Result<Request, ReadError>, next: nat)
    requires pos + 4 <= |conn| && 4 <= size
    ensures pos + 4 <= next <= |conn|
    ensures res.Ok? ==> ParseFrame(conn[pos..], size) == Ok(Parsed(res.value, next - pos))
    ensures res.Err? ==> ParseFrame(conn[pos..], size) == Err(res.error)
  {
    var reqSize := size - 4;
    var reqBuf := new byte[reqSize];
    var n, status := ReadFull(conn, pos + 4, reqBuf);
    next := pos + 4 + n;
    if status != Full {
      ShortFrame(conn[pos..], size);
      return Err(ShortPayload), next;
    }
    assert reqBuf[..] == reqBuf[..n] == conn[pos..][4..size];
    res, next := FinishFrame(conn, pos, size, reqBuf);
  }

  /** The rest of ReadFrame once reqBuf holds the payload: the terminator, then the payload's request. */
  method FinishFrame(conn: seq<byte>, pos: nat, size: nat, reqBuf: array<byte>)
    returns (res: Result<Request, ReadError>, next: nat)
    requires 4 <= size && pos + size <= |conn| && reqBuf[..] == conn[pos..][4..size]
    ensures pos + size <= next <= |conn|
    ensures res.Ok? ==> ParseFrame(conn[pos..], size) == Ok(Parsed(res.value, next - pos))
    ensures res.Err? ==> ParseFrame(conn[pos..], size) == Err(res.error)
  {
    var bad;
    bad, next := ReadTerminator(conn, pos, size);
    if bad.Some? {
      return Err(bad.value), next;
    }
    res := DecodeBuffer(reqBuf);
    CompleteFrame(conn[pos..], size, reqBuf[..]);
  }

  /** The four bytes after the payload of a frame at `pos`, read into a fresh pktLine: "0000", or why not. */
  method ReadTerminator(conn: seq<byte>, pos: nat, size: nat) returns (bad: Option<ReadError>, next: nat)
    requires 4 <= size && pos + size <= |conn|
    ensures pos + size <= next <= |conn|
    ensures bad.Some? ==> ParseFrame(conn[pos..], size) == Err(bad.value)
    ensures bad.None? ==> next == pos + size + 4 <= |conn| && conn[pos..][size..size + 4] == FlushPkt
  {
    ghost var s := conn[pos..];
    var pktLine := new byte[4];
    var n, status := ReadFull(conn, pos + size, pktLine);
    next := pos + size + n;
    if status != Full {
      return Some(ShortTerminator), next;
    }
    assert pktLine[..] == pktLine[..n] == s[size..size + 4];
    // string(pktLine) != "0000" (see FlushPktText)
    if pktLine[..] != FlushPkt {
      return Some(BadTerminator), next;
    }
    return None, next;
  }

  lemma ShortFrame(s: seq<byte>, size: nat)
    requires 4 <= size && |s| < size
    ensures ParseFrame(s, size) == Err(ShortPayload)
  {
  }

  /** A frame whose payload and terminator are in place is what its payload decodes to. */
  lemma CompleteFrame(s: seq<byte>, size: nat, payload: seq<byte>)
    requires 4 <= size && size + 4 <= |s| && s[4..size] == payload && s[size..size + 4] == FlushPkt
    ensures DecodePayload(payload).Ok? ==> ParseFrame(s, size) == Ok(Parsed(DecodePayload(payload).value, size + 4))
    ensures DecodePayload(payload).Err? ==> ParseFrame(s, size) == Err(DecodePayload(payload).error)
  {
  }

  /** The key and then the command's fields, read with binary.Read's cursor through reqBuf. */
  method DecodeBuffer(reqBuf: array<byte>) returns (res: Result<Request, ReadError>)
    ensures res == DecodePayload(reqBuf[..])
  {
    var off := 0;
    if reqBuf.Length - off < KeySize {
      return Err(ShortKey);
    }
    var k: Key := reqBuf[off..off + KeySize];
    assert k == reqBuf[..][..KeySize];
    off := off + KeySize;
    var key := ToString(k);
    if key != "oid" {
      return Err(UnknownCommand(key));
    }
    if reqBuf.Length - off < GetOidBodySize {
      return Err(ShortBody);
    }
    assert reqBuf[off..off + GetOidBodySize] == reqBuf[..][KeySize..KeySize + GetOidBodySize];
    var oidReq := DecodeGetOidBody(reqBuf[off..off + GetOidBodySize]);
    return Ok(GetOid(oidReq));
  }

  // ---------------------------------------------------------------------
  // Properties of the framing
  // ---------------------------------------------------------------------

  /** The frame of a GetOid request: "003d", the key, the body, "0000". */
  function EncodeGetOidFrame(r: GetOidRequest): (f: seq<byte>)
    ensures |f| == 65
  {
    Frame(OidKey + EncodeGetOidBody(r))
  }

  /** Decoding a client's GetOid frame gives back the request and takes exactly its 65 bytes. */
  lemma GetOidPayload(r: GetOidRequest)
    ensures DecodePayload(OidKey + EncodeGetOidBody(r)) == Ok(GetOid(r))
  {
    var p := OidKey + EncodeGetOidBody(r);
    assert p[..16] == OidKey;
    assert p[16..57] == EncodeGetOidBody(r);
    OidKeyIsOid();
  }

  /** The frame around payload `p`: its length prefix, `p` itself, the terminator. */
  function Frame(p: seq<byte>): (f: seq<byte>)
    requires 4 + |p| <= 0xffff
    ensures |f| == |p| + 8
  {
    LengthPrefixFits(4 + |p|);
    LengthPrefix(4 + |p|) + p + FlushPkt
  }

  /** Framing round trip: a framed payload is read back as that payload, taking the whole frame. */
  lemma FrameRoundTrip(p: seq<byte>, rest: seq<byte>)
    requires 4 + |p| <= 0xffff
    ensures ParseRequest(Frame(p) + rest) ==
      match DecodePayload(p)
      case Err(e) => Err(e)
      case Ok(req) => Ok(Parsed(req, |p| + 8))
  {
    var size := 4 + |p|;
    var pre := LengthPrefix(size);
    LengthPrefixFits(size);
    var s := Frame(p) + rest;
    assert s == pre + (p + (FlushPkt + rest));
    assert s[..4] == pre;
    assert s[4..size] == p;
    assert s[size..size + 4] == FlushPkt;
  }

  /** L = 4 announces an empty payload, which has no key. */
  lemma EmptyPayloadIsError(rest: seq<byte>)
    ensures ParseRequest(Frame([]) + rest) == Err(ShortKey)
  {
    FrameRoundTrip([], rest);
  }

  lemma GetOidRoundTrip(r: GetOidRequest, rest: seq<byte>)
    ensures ParseRequest(EncodeGetOidFrame(r) + rest) == Ok(Parsed(GetOid(r), 65))
  {
    FrameRoundTrip(OidKey + EncodeGetOidBody(r), rest);
    GetOidPayload(r);
  }

  /** A stream that has ended is the EOF request, not an error. */
  lemma EndOfStreamIsEof()
    ensures ParseRequest([]) == Ok(Parsed(EOF, 0))
  {
  }

  /** "0000" is a flush packet and takes exactly its four bytes. */
  lemma FlushPacketTakesFourBytes(rest: seq<byte>)
    ensures ParseRequest(FlushPkt + rest) == Ok(Parsed(FlushPacket, 4))
  {
    var s := FlushPkt + rest;
    assert s[..4] == FlushPkt;
    assert StringOf(s[..4]) == ZeroDigits(4);
    HexValueOfZeros(4);
  }

  /** One to three bytes, or four that are not hex digits, cannot start a frame. */
  lemma MalformedPrefixIsError(s: seq<byte>)
    requires 0 < |s| < 4 || (|s| >= 4 && !AllHexDigits(StringOf(s[..4])))
    ensures ParseRequest(s).Err?
  {
  }

  /** Lengths 1, 2 and 3 are rejected rather than wrapped around. */
  lemma ShortLengthRejected(s: seq<byte>)
    requires |s| >= 4 && ParseUint(StringOf(s[..4])).Some?
    requires 1 <= ParseUint(StringOf(s[..4])).value <= 3
    ensures ParseRequest(s) == Err(LengthUnderflow)
  {
  }

  /**
   * Every request other than EOF and a flush packet is a well-formed frame:
   * it takes L + 4 bytes, its last four are "0000" and its payload decodes.
   */
  lemma FrameShape(s: seq<byte>)
    requires ParseRequest(s).Ok? && ParseRequest(s).value.req.GetOid?
    ensures var size := ParseUint(StringOf(s[..4])).value;
      && ParseRequest(s).value.consumed == size + 4
      && s[size..size + 4] == FlushPkt
      && DecodePayload(s[4..size]) == Ok(ParseRequest(s).value.req)
  {
  }

  /** A frame that is otherwise valid fails on a wrong terminator. */
  lemma WrongTerminatorIsError(s: seq<byte>)
    requires |s| >= 4 && ParseUint(StringOf(s[..4])).Some?
    requires var size := ParseUint(StringOf(s[..4])).value;
      size >= 4 && |s| >= size + 4 && StringOf(s[size..size + 4]) != "0000"
    ensures ParseRequest(s) == Err(BadTerminator)
  {
    var size := ParseUint(StringOf(s[..4])).value;
    FlushPktText(s[size..size + 4]);
  }

  /** A stream that ends inside the payload is an error. */
  lemma TruncatedPayloadIsError(s: seq<byte>)
    requires |s| >= 4 && ParseUint(StringOf(s[..4])).Some?
    requires var size := ParseUint(StringOf(s[..4])).value; size >= 4 && |s| < size
    ensures ParseRequest(s) == Err(ShortPayload)
  {
  }

  /**
   * The GetOid fields sit at fixed offsets of the payload, little-endian;
   * shorter payloads fail and bytes after offset 56 are ignored.
   */
  lemma GetOidLayout(p: seq<byte>)
    requires |p| >= KeySize && ToString(p[..KeySize]) == "oid"
    ensures |p| < 57 ==> DecodePayload(p) == Err(ShortBody)
    ensures |p| >= 57 ==> (DecodePayload(p) ==
      Ok(GetOid(GetOidRequest(ObjectId(p[16..48], DecodeI32(p[48..52])), DecodeU32(p[52..56]), p[56]))))
    ensures |p| >= 57 ==> DecodePayload(p) == DecodePayload(p[..57])
  {
    if |p| >= 57 {
      var b := p[16..57];
      var o := b[..36];
      assert o == p[16..52];
      assert o[..32] == p[16..48];
      assert o[32..] == p[48..52];
      assert b[36..40] == p[52..56];
      assert b[40] == p[56];
      assert DecodeGetOidBody(b) ==
        GetOidRequest(ObjectId(p[16..48], DecodeI32(p[48..52])), DecodeU32(p[52..56]), p[56]);
      assert p[..57][..16] == p[..16];
      assert p[..57][16..57] == b;
    }
  }

  /** Any key that does not trim to "oid" is refused. */
  lemma UnknownKeyIsError(p: seq<byte>)
    requires |p| >= KeySize && ToString(p[..KeySize]) != "oid"
    ensures DecodePayload(p) == Err(UnknownCommand(ToString(p[..KeySize])))
  {
  }

  /**
   * What reqSize -= 4 computes in Go: an unsigned 64-bit subtraction
   * (the length itself is below 2^32).
   */
  function GoPayloadSize(size: nat): (n: nat)
    requires size < 0x1_0000_0000
    ensures size >= 4 ==> n == size - 4
  {
    (size - 4) % 0x1_0000_0000_0000_0000
  }

  /**
   * For lengths 1..3 the wrapped size is at least 2^63, which make([]byte, n)
   * rejects with a run-time panic.
   */
  lemma ShortLengthWrapsAround(size: nat)
    requires 1 <= size <= 3
    ensures GoPayloadSize(size) >= 0x8000_0000_0000_0000
  {
  }
}
