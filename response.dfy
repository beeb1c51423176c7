/**
 * Responses (internal/ipc/response.go).
 *
 * A GetOid response is one frame: the `%04x` length (which counts itself),
 * the 112-byte little-endian GetOidResponse struct, the object content when
 * it was asked for, and the terminator "0000". Struct layout (byte offsets):
 *
 *   0..15 Key | 16..47 Oid.Hash | 48..51 Oid.HashAlgo | 52..83 DeltaBaseOid.Hash
 *   84..87 DeltaBaseOid.HashAlgo | 88..95 DiskSize | 96..99 Size | 100..103 zero
 *   104..107 Whence | 108..111 Type
 */
module IpcResponse {
  import opened Wrappers
  import opened Encoding
  import opened Connection
  import opened IpcTypes
  import opened IpcRequest

  datatype GetOidResponse = GetOidResponse(
    key: Key,
    oid: ObjectId,
    deltaBaseOid: ObjectId,
    diskSize: int64,
    size: uint32,
    whence: uint32,
    typ: int32)

  const ResponseStructSize: nat := 112

  // ---------------------------------------------------------------------
  // The error sentinel
  // ---------------------------------------------------------------------

  /** The three writes of WriteErrorResponse: the length of "error" plus four, "error", flush. */
  function ErrorWrites(): (w: seq<seq<byte>>)
    ensures |w| == 3
  {
    var message := BytesOf("error");
    [LengthPrefix(|message| + 4), message, FlushPkt]
  }

  /** The sentinel is exactly the 13 bytes "0009error0000". */
  lemma ErrorSentinelBytes()
    ensures Flatten(ErrorWrites()) == BytesOf("0009error0000")
    ensures |Flatten(ErrorWrites())| == 13
  {
    assert HexDigits(9) == "9";
    assert Sprintf04x(9) == "0009";
    var w := ErrorWrites();
    FlattenThree(w[0], w[1], w[2]);
  }

  /** WriteErrorResponse(conn): the three writes, whatever their outcome. */
  method WriteErrorResponse(conn: Conn)
    modifies conn
    ensures conn.out == old(conn.out) + Flatten(Take(ErrorWrites(), old(conn.writesLeft)))
    ensures conn.writesLeft == old(conn.writesLeft) - Min(old(conn.writesLeft), 3)
  {
    ghost var base, budget := conn.out, conn.writesLeft;
    ghost var w := ErrorWrites();
    var message := BytesOf("error");
    var _ := Send(conn, LengthPrefix(|message| + 4), base, budget, w, 0);
    var _ := Send(conn, message, base, budget, w, 1);
    var _ := Send(conn, FlushPkt, base, budget, w, 2);
  }

  // ---------------------------------------------------------------------
  // Object identities of responses
  // ---------------------------------------------------------------------

  /** GitHashToObjectId: hex-decode hash.String() into a zeroed buffer, algorithm 1. */
  function GitHashToObjectId(h: Hash20): (r: Result<ObjectId, HexError>)
    ensures r.Ok? ==> r.value.hashAlgo == 1
  {
    match DecodeString(EncodeToString(h))
    case Err(e) => Err(e)
    case Ok(bin) => Ok(ObjectId(bin + Zeros(32 - |bin|), 1))
  }

  /**
   * The conversion never fails: bytes 0..19 are the hash, bytes 20..31 are
   * zero, and the id renders and converts back to the same hash.
   */
  lemma GitHashToObjectIdExact(h: Hash20)
    ensures GitHashToObjectId(h) == Ok(ObjectId(h + Zeros(12), 1))
    ensures Hex(GitHashToObjectId(h).value) == EncodeToString(h)
    ensures GitHash(GitHashToObjectId(h).value) == h
  {
    DecodeEncodeString(h);
    var oid := ObjectId(h + Zeros(12), 1);
    assert oid.hash[..20] == h;
  }

  // ---------------------------------------------------------------------
  // The struct (binary.Write(buf, binary.LittleEndian, resp))
  // ---------------------------------------------------------------------

  function EncodeResponse(r: GetOidResponse): (b: seq<byte>)
    ensures |b| == ResponseStructSize
  {
    r.key + EncodeObjectId(r.oid) + EncodeObjectId(r.deltaBaseOid) + EncodeI64(r.diskSize)
      + EncodeU32(r.size) + Zeros(4) + EncodeU32(r.whence) + EncodeI32(r.typ)
  }

  /** How a client reads the struct back. */
  function DecodeResponse(b: seq<byte>): GetOidResponse
    requires |b| == ResponseStructSize
  {
    GetOidResponse(b[..16], DecodeObjectId(b[16..52]), DecodeObjectId(b[52..88]),
      DecodeI64(b[88..96]), DecodeU32(b[96..100]), DecodeU32(b[104..108]), DecodeI32(b[108..112]))
  }

  /** Every field sits at its offset, and bytes 100..103 are zero padding. */
  lemma ResponseLayout(r: GetOidResponse)
    ensures var b := EncodeResponse(r);
      && b[..16] == r.key
      && b[16..52] == EncodeObjectId(r.oid)
      && b[52..88] == EncodeObjectId(r.deltaBaseOid)
      && b[88..96] == EncodeI64(r.diskSize)
      && b[96..100] == EncodeU32(r.size)
      && b[100..104] == Zeros(4)
      && b[104..108] == EncodeU32(r.whence)
      && b[108..112] == EncodeI32(r.typ)
  {
    var b := EncodeResponse(r);
    var a0 := r.key;
    var a1 := a0 + EncodeObjectId(r.oid);
    var a2 := a1 + EncodeObjectId(r.deltaBaseOid);
    var a3 := a2 + EncodeI64(r.diskSize);
    var a4 := a3 + EncodeU32(r.size);
    var a5 := a4 + Zeros(4);
    var a6 := a5 + EncodeU32(r.whence);
    assert b[..112] == a6 + EncodeI32(r.typ);
    Mid(b, a6, EncodeI32(r.typ));
    Mid(b, a5, EncodeU32(r.whence));
    Mid(b, a4, Zeros(4));
    Mid(b, a3, EncodeU32(r.size));
    Mid(b, a2, EncodeI64(r.diskSize));
    Mid(b, a1, EncodeObjectId(r.deltaBaseOid));
    Mid(b, a0, EncodeObjectId(r.oid));
  }

  /** When `x + f` begins `whole`, `f` sits right after `x`. */
  lemma Mid(whole: seq<byte>, x: seq<byte>, f: seq<byte>)
    requires |x| + |f| <= |whole| && whole[..|x| + |f|] == x + f
    ensures whole[..|x|] == x && whole[|x|..|x| + |f|] == f
  {
    assert whole[..|x|] == whole[..|x| + |f|][..|x|];
    assert whole[|x|..|x| + |f|] == whole[..|x| + |f|][|x|..];
  }

  lemma ResponseRoundTrip(r: GetOidResponse)
    ensures DecodeResponse(EncodeResponse(r)) == r
  {
    ResponseLayout(r);
  }

  // ---------------------------------------------------------------------
  // GetOidResponse.WriteResponse
  // ---------------------------------------------------------------------

  /** The one Read call WriteResponse makes: up to len(buf) bytes of `chunk`, or an error. */
  datatype ContentReader = ContentReader(chunk: seq<byte>, fails: bool)

  datatype WriteError = ReadFailed | MismatchedSize(expected: nat, got: nat) | WriteFailed

  method Read(reader: ContentReader, buf: array<byte>) returns (n: nat, failed: bool)
    modifies buf
    ensures failed == reader.fails
    ensures !failed ==> n == Min(buf.Length, |reader.chunk|) && buf[..n] == reader.chunk[..n]
  {
    if reader.fails {
      return 0, true;
    }
    n := 0;
    while n < buf.Length && n < |reader.chunk|
      invariant n <= buf.Length && n <= |reader.chunk|
      invariant forall k :: 0 <= k < n ==> buf[k] == reader.chunk[k]
    {
      buf[n] := reader.chunk[n];
      n := n + 1;
    }
    failed := false;
  }

  /**
   * The content read of WriteResponse: make([]byte, resp.Size), one Read,
   * and the error when it fails or comes back short.
   */
  method ReadAll(resp: GetOidResponse, reader: ContentReader) returns (content: seq<byte>, err: Option<WriteError>)
    ensures err.Some? <==> ReadContent(resp, Some(reader)).Err?
    ensures err.Some? ==> err.value == ReadContent(resp, Some(reader)).error
    ensures err.None? ==> ReadContent(resp, Some(reader)) == Ok(Some(content))
  {
    var buf := new byte[resp.size];
    var n, failed := Read(reader, buf);
    if failed {
      return [], Some(ReadFailed);
    } else if n != resp.size {
      return [], Some(MismatchedSize(resp.size, n));
    }
    assert buf[..] == buf[..n];
    return buf[..], None;
  }

  /**
   * The content WriteResponse sends, read before anything is written: none
   * without a reader, else exactly Size bytes or an error.
   */
  function ReadContent(resp: GetOidResponse, reader: Option<ContentReader>): (r: Result<Option<seq<byte>>, WriteError>)
    ensures r.Err? <==> reader.Some? && (reader.value.fails || |reader.value.chunk| < resp.size)
    ensures r.Ok? ==> (r.value.Some? <==> reader.Some?)
    ensures r.Ok? && r.value.Some? ==> r.value.value == reader.value.chunk[..resp.size]
  {
    match reader
    case None => Ok(None)
    case Some(rd) =>
      if rd.fails then Err(ReadFailed)
      else
        var n := Min(resp.size, |rd.chunk|);
        if n != resp.size then Err(MismatchedSize(resp.size, n))
        else Ok(Some(rd.chunk[..n]))
  }

  /** The length WriteResponse declares: the struct, its own four bytes and the announced content. */
  function DeclaredLength(resp: GetOidResponse, withContent: bool): nat
  {
    ResponseStructSize + 4 + (if withContent then resp.size else 0)
  }

  /** The writes of a response that has its content in hand. */
  function ResponseWrites(resp: GetOidResponse, content: Option<seq<byte>>): (w: seq<seq<byte>>)
    ensures |w| == if content.Some? then 4 else 3
  {
    var prefix := LengthPrefix(DeclaredLength(resp, content.Some?));
    match content
    case None => [prefix, EncodeResponse(resp), FlushPkt]
    case Some(c) => [prefix, EncodeResponse(resp), c, FlushPkt]
  }

  /** The bytes of the content, if any. */
  function ContentBytes(content: Option<seq<byte>>): seq<byte>
  {
    if content.Some? then content.value else []
  }

  /**
   * A response is the prefix, the struct, the content if any, then "0000",
   * and its declared length counts the prefix, the struct and the content.
   */
  lemma ResponseFrame(resp: GetOidResponse, content: Option<seq<byte>>)
    requires content.Some? ==> |content.value| == resp.size
    ensures Flatten(ResponseWrites(resp, content)) ==
      LengthPrefix(DeclaredLength(resp, content.Some?)) + EncodeResponse(resp) + ContentBytes(content) + FlushPkt
    ensures DeclaredLength(resp, content.Some?) == 4 + |EncodeResponse(resp) + ContentBytes(content)|
  {
    var prefix := LengthPrefix(DeclaredLength(resp, content.Some?));
    if content.Some? {
      FlattenFour(prefix, EncodeResponse(resp), content.value, FlushPkt);
    } else {
      FlattenThree(prefix, EncodeResponse(resp), FlushPkt);
    }
  }

  /**
   * The prefix takes four characters exactly when the declared length is at
   * most 0xffff, and then a client reads the length back from the frame.
   */
  lemma ResponsePrefixReadsBack(resp: GetOidResponse, content: Option<seq<byte>>)
    requires content.Some? ==> |content.value| == resp.size
    ensures var len := DeclaredLength(resp, content.Some?);
      && (|LengthPrefix(len)| == 4 <==> len <= 0xffff)
      && (len <= 0xffff ==> ParseUint(StringOf(Flatten(ResponseWrites(resp, content))[..4])) == Some(len))
  {
    var len := DeclaredLength(resp, content.Some?);
    var prefix := LengthPrefix(len);
    LengthPrefixFits(len);
    if len <= 0xffff {
      ResponseFrame(resp, content);
      var rest := EncodeResponse(resp) + ContentBytes(content) + FlushPkt;
      AppendFour(prefix, EncodeResponse(resp), ContentBytes(content), FlushPkt);
      LengthPrefixStarts(len, rest);
    }
  }

  lemma AppendFour(a: seq<byte>, b: seq<byte>, c: seq<byte>, d: seq<byte>)
    ensures a + b + c + d == a + (b + c + d)
  {
  }

  /** Without a reader a response carries no content: 120 bytes in all. */
  lemma NoContentWithoutReader(resp: GetOidResponse)
    ensures Flatten(ResponseWrites(resp, None)) == LengthPrefix(116) + EncodeResponse(resp) + FlushPkt
    ensures |Flatten(ResponseWrites(resp, None))| == 120
  {
    assert DeclaredLength(resp, false) == 116;
    assert ResponseWrites(resp, None) == [LengthPrefix(116), EncodeResponse(resp), FlushPkt];
    FlattenThree(LengthPrefix(116), EncodeResponse(resp), FlushPkt);
    LengthPrefixFits(116);
  }

  /**
   * resp.WriteResponse(conn, contentReader): nothing is written unless the
   * content was read in full; then the writes go out in order until one fails.
   */
  method WriteResponse(resp: GetOidResponse, conn: Conn, reader: Option<ContentReader>) returns (err: Option<WriteError>)
    modifies conn
    ensures ReadContent(resp, reader).Err? ==>
      && err == Some(ReadContent(resp, reader).error)
      && conn.out == old(conn.out) && conn.writesLeft == old(conn.writesLeft)
    ensures ReadContent(resp, reader).Ok? ==>
      var w := ResponseWrites(resp, ReadContent(resp, reader).value);
      && conn.out == old(conn.out) + Flatten(Take(w, old(conn.writesLeft)))
      && conn.writesLeft == old(conn.writesLeft) - Min(old(conn.writesLeft), |w|)
      && (err.None? <==> old(conn.writesLeft) >= |w|)
  {
    var buf := EncodeResponse(resp);
    var responseSize := |buf| + 4;
    if reader.Some? {
      responseSize := responseSize + resp.size;
    }

    var content: Option<seq<byte>> := None;
    if reader.Some? {
      var c, e := ReadAll(resp, reader.value);
      if e.Some? {
        return e;
      }
      content := Some(c);
    }
    assert ReadContent(resp, reader) == Ok(content);
    err := WriteFrame(resp, conn, LengthPrefix(responseSize), buf, content);
  }

  /** The writes of WriteResponse once the content is in hand, stopping at the first that fails. */
  method WriteFrame(resp: GetOidResponse, conn: Conn, prefix: seq<byte>, buf: seq<byte>, content: Option<seq<byte>>)
    returns (err: Option<WriteError>)
    requires prefix == LengthPrefix(DeclaredLength(resp, content.Some?)) && buf == EncodeResponse(resp)
    modifies conn
    ensures var w := ResponseWrites(resp, content);
      && conn.out == old(conn.out) + Flatten(Take(w, old(conn.writesLeft)))
      && conn.writesLeft == old(conn.writesLeft) - Min(old(conn.writesLeft), |w|)
      && (err.None? <==> old(conn.writesLeft) >= |w|)
      && (err.Some? ==> err == Some(WriteFailed))
  {
    ghost var base, budget := conn.out, conn.writesLeft;
    ghost var w := ResponseWrites(resp, content);
    var ok := Send(conn, prefix, base, budget, w, 0);
    if !ok {
      return Some(WriteFailed);
    }
    ok := Send(conn, buf, base, budget, w, 1);
    if !ok {
      return Some(WriteFailed);
    }
    if content.Some? {
      ok := Send(conn, content.value, base, budget, w, 2);
      if !ok {
        return Some(WriteFailed);
      }
    }
    ok := Send(conn, FlushPkt, base, budget, w, |w| - 1);
    if !ok {
      return Some(WriteFailed);
    }
    return None;
  }
}
