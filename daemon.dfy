/**
 * The per-connection loop of the daemon (cmd/git-odb-daemon/main.go).
 *
 * The object database is a map from 20-byte hashes to the objects it holds.
 * The loop reads one request at a time: a flush packet is skipped, the end
 * of the stream ends the connection, and a GetOid request is answered with
 * the object's response. A failure before WriteResponse is called — a
 * malformed request, a missing object, an object whose content cannot be
 * opened — is answered with the error sentinel and ends the connection; a
 * failure inside WriteResponse (the content read or a write) ends it
 * without one.
 *
 * `Session` says what the loop answers to a whole input stream if the peer
 * accepts every write, and `Serve` is proved to emit exactly the writes of
 * that answer that the peer accepts.
 */
module Daemon {
  import opened Wrappers
  import opened Encoding
  import opened Connection
  import opened IpcTypes
  import opened IpcRequest
  import opened IpcResponse

  /**
   * What db.EncodedObject returns: the object's own hash, type and size,
   * and what objectInfo.Reader() gives (None when it fails).
   */
  datatype EncodedObject = EncodedObject(hash: Hash20, typ: int8, size: int64, reader: Option<ContentReader>)

  /** The object database; a hash it does not map is a lookup error. */
  type Store = map<Hash20, EncodedObject>

  /** A store in which every object is filed under its own hash. */
  ghost predicate Consistent(store: Store)
  {
    forall h :: h in store ==> store[h].hash == h
  }

  /** What the loop puts on the wire for one request. */
  datatype Event = Reply(resp: GetOidResponse, content: Option<seq<byte>>) | Sentinel

  function EventWrites(e: Event): seq<seq<byte>>
  {
    match e
    case Reply(resp, content) => ResponseWrites(resp, content)
    case Sentinel => ErrorWrites()
  }

  /** The writes of a sequence of events, in order. */
  function Writes(evs: seq<Event>): seq<seq<byte>>
  {
    if evs == [] then [] else EventWrites(evs[0]) + Writes(evs[1..])
  }

  /** The response main.go populates for an object: key, oid, size and type; every other field zero. */
  function ObjectResponse(oid: ObjectId, obj: EncodedObject): GetOidResponse
  {
    GetOidResponse(OidKey, oid, ZeroOid, 0, Uint32Of(obj.size), 0, obj.typ as int32)
  }

  /** The events of one request and whether the loop goes on after it. */
  datatype Reaction = Reaction(events: seq<Event>, goOn: bool)

  /**
   * The "oid" case of the loop: either one reply and the loop goes on, or
   * the loop returns after the sentinel or after nothing at all.
   */
  function Answer(get: GetOidRequest, store: Store): (r: Reaction)
    ensures r.goOn <==> |r.events| == 1 && r.events[0].Reply?
    ensures !r.goOn ==> r.events == [] || r.events == [Sentinel]
  {
    var h := GitHash(get.oid);
    if h !in store then Reaction([Sentinel], false)
    else
      var obj := store[h];
      match GitHashToObjectId(obj.hash)
      case Err(_) => Reaction([Sentinel], false)
      case Ok(oid) =>
        var resp := ObjectResponse(oid, obj);
        if get.wantContent != 0 && obj.reader.None? then Reaction([Sentinel], false)
        else
          var reader := if get.wantContent != 0 then obj.reader else None;
          match ReadContent(resp, reader)
          case Err(_) => Reaction([], false)
          case Ok(content) => Reaction([Reply(resp, content)], true)
  }

  /** One pass of the loop over the unread input: its events, and the bytes taken when it goes on. */
  datatype Step = Step(events: seq<Event>, next: Option<nat>)

  function LoopStep(s: seq<byte>, store: Store): (st: Step)
    ensures st.next.Some? ==> 4 <= st.next.value <= |s|
  {
    match ParseRequest(s)
    case Err(_) => Step([Sentinel], None)
    case Ok(p) =>
      match p.req
      case EOF => Step([], None)
      case FlushPacket => Step([], Some(p.consumed))
      case GetOid(get) =>
        var a := Answer(get, store);
        Step(a.events, if a.goOn then Some(p.consumed) else None)
  }

  /** Everything the loop answers to the input `s`, if every write is accepted. */
  function Session(s: seq<byte>, store: Store): seq<Event>
    decreases |s|
  {
    var st := LoopStep(s, store);
    st.events + (if st.next.Some? then Session(s[st.next.value..], store) else [])
  }

  function SessionWrites(s: seq<byte>, store: Store): seq<seq<byte>>
  {
    Writes(Session(s, store))
  }

  // ---------------------------------------------------------------------
  // The loop
  // ---------------------------------------------------------------------

  lemma {:induction false} WritesAppend(a: seq<Event>, b: seq<Event>)
    ensures Writes(a + b) == Writes(a) + Writes(b)
    decreases |a|
  {
    if a == [] {
      assert a + b == b;
    } else {
      assert (a + b)[1..] == a[1..] + b;
      WritesAppend(a[1..], b);
    }
  }

  lemma WritesOne(e: Event)
    ensures Writes([e]) == EventWrites(e)
  {
    assert [e][1..] == [];
  }

  /** When the first pass ends the loop, the session's writes are that pass's. */
  lemma SessionWritesEnd(s: seq<byte>, store: Store)
    requires LoopStep(s, store).next.None?
    ensures SessionWrites(s, store) == Writes(LoopStep(s, store).events)
  {
    assert Session(s, store) == LoopStep(s, store).events;
  }

  /**
   * The "oid" case of the loop body. It stops exactly when the loop
   * returns: after an error, or when a write of the response was refused
   * (the peer accepts fewer writes than the answer needs).
   */
  method AnswerGetOid(get: GetOidRequest, store: Store, conn: Conn) returns (stop: bool)
    modifies conn
    ensures conn.out == old(conn.out) + Flatten(Take(Writes(Answer(get, store).events), old(conn.writesLeft)))
    ensures conn.writesLeft == old(conn.writesLeft) - Min(old(conn.writesLeft), |Writes(Answer(get, store).events)|)
    ensures stop ==> !Answer(get, store).goOn || conn.writesLeft == 0
    ensures !stop ==> Answer(get, store).goOn
    ensures stop <==> !Answer(get, store).goOn || old(conn.writesLeft) < |Writes(Answer(get, store).events)|
  {
    var h := GitHash(get.oid);
    if h !in store {
      WriteErrorResponse(conn);
      WritesOne(Sentinel);
      return true;
    }
    var obj := store[h];
    // The conversion cannot fail, so its error branch is not taken.
    GitHashToObjectIdExact(obj.hash);
    var respOid := GitHashToObjectId(obj.hash).value;
    var resp := ObjectResponse(respOid, obj);
    var reader: Option<ContentReader> := None;
    if get.wantContent != 0 {
      if obj.reader.None? {
        WriteErrorResponse(conn);
        WritesOne(Sentinel);
        return true;
      }
      reader := obj.reader;
    }
    var err := WriteResponse(resp, conn, reader);
    if ReadContent(resp, reader).Ok? {
      WritesOne(Reply(resp, ReadContent(resp, reader).value));
    }
    return err.Some?;
  }

  /**
   * One pass of the loop body at position `pos`. It stops exactly when the
   * loop returns: after the request's step ends the session, or when a
   * write of the response was refused.
   */
  method HandleRequest(input: seq<byte>, pos: nat, store: Store, conn: Conn) returns (next: nat, stop: bool)
    requires pos <= |input|
    modifies conn
    ensures conn.out == old(conn.out) + Flatten(Take(Writes(LoopStep(input[pos..], store).events), old(conn.writesLeft)))
    ensures conn.writesLeft == old(conn.writesLeft) - Min(old(conn.writesLeft), |Writes(LoopStep(input[pos..], store).events)|)
    ensures pos <= next <= |input|
    ensures LoopStep(input[pos..], store).next.Some? ==> LoopStep(input[pos..], store).next == Some(next - pos)
    ensures !stop ==> LoopStep(input[pos..], store).next.Some?
    ensures stop ==> LoopStep(input[pos..], store).next.None? || conn.writesLeft == 0
    ensures stop <==> LoopStep(input[pos..], store).next.None?
                      || old(conn.writesLeft) < |Writes(LoopStep(input[pos..], store).events)|
  {
    var req;
    req, next := ReadRequest(input, pos);
    if req.Err? {
      WriteErrorResponse(conn);
      WritesOne(Sentinel);
      return next, true;
    }
    match req.value
    case EOF =>
      return next, true;
    case FlushPacket =>
      return next, false;
    case GetOid(get) =>
      stop := AnswerGetOid(get, store, conn);
  }

  lemma ConcatParts(a: seq<seq<byte>>, b: seq<seq<byte>>, c: seq<seq<byte>>)
    ensures (a + (b + c))[|a|..|a| + |b|] == b
    ensures a + (b + c) == (a + b) + c
  {
  }

  /**
   * The state of the loop at position `pos`: the writes `done` were
   * attempted, and the session of the input from `pos` holds the rest.
   */
  ghost predicate Serving(conn: Conn, input: seq<byte>, store: Store, base: seq<byte>, budget: nat,
                          all: seq<seq<byte>>, done: seq<seq<byte>>, pos: nat)
    reads conn
  {
    && pos <= |input|
    && all == done + SessionWrites(input[pos..], store)
    && conn.out == base + Flatten(Take(all, Min(budget, |done|)))
    && conn.writesLeft == budget - Min(budget, |done|)
  }

  /**
   * The session from `pos` is the writes of its first pass, then, when
   * that pass goes on at `next`, the session from `next`.
   */
  lemma SessionAt(input: seq<byte>, pos: nat, store: Store, next: nat)
    requires pos <= next <= |input|
    requires LoopStep(input[pos..], store).next.Some? ==> LoopStep(input[pos..], store).next == Some(next - pos)
    ensures SessionWrites(input[pos..], store) == Writes(LoopStep(input[pos..], store).events) +
      (if LoopStep(input[pos..], store).next.Some? then SessionWrites(input[next..], store) else [])
  {
    if LoopStep(input[pos..], store).next.Some? {
      SessionGoesOn(input, pos, store, next);
    } else {
      SessionEnds(input, pos, store);
    }
  }

  lemma SessionGoesOn(input: seq<byte>, pos: nat, store: Store, next: nat)
    requires pos <= next <= |input| && LoopStep(input[pos..], store).next == Some(next - pos)
    ensures SessionWrites(input[pos..], store) ==
      Writes(LoopStep(input[pos..], store).events) + SessionWrites(input[next..], store)
  {
    var s := input[pos..];
    assert s[next - pos..] == input[next..];
    SessionWritesOn(s, store, LoopStep(s, store), next - pos, input[next..]);
  }

  /** The writes of a session whose first pass goes on after `n` bytes: that pass's, then those of `tail`. */
  lemma SessionWritesOn(s: seq<byte>, store: Store, st: Step, n: nat, tail: seq<byte>)
    requires st == LoopStep(s, store) && st.next == Some(n) && n <= |s| && tail == s[n..]
    ensures SessionWrites(s, store) == Writes(st.events) + SessionWrites(tail, store)
  {
    SessionOn(s, store, st, n);
    WritesAppend(st.events, Session(tail, store));
  }

  /** Unfolding the session once at a pass that goes on after `n` bytes. */
  lemma SessionOn(s: seq<byte>, store: Store, st: Step, n: nat)
    requires st == LoopStep(s, store) && st.next == Some(n)
    ensures Session(s, store) == st.events + Session(s[n..], store)
  {
  }

  lemma SessionEnds(input: seq<byte>, pos: nat, store: Store)
    requires pos <= |input| && LoopStep(input[pos..], store).next.None?
    ensures SessionWrites(input[pos..], store) == Writes(LoopStep(input[pos..], store).events) + []
  {
    SessionWritesEnd(input[pos..], store);
  }

  /**
   * Attempting the writes `w` that follow `done` in `all`: `done` grows by
   * `w`, and when nothing follows `w` or the budget is spent, every write
   * owed was attempted.
   */
  lemma Advance(base: seq<byte>, budget: nat, all: seq<seq<byte>>, done: seq<seq<byte>>, w: seq<seq<byte>>,
                rest: seq<seq<byte>>, out0: seq<byte>, left0: nat, out1: seq<byte>, left1: nat)
    requires all == done + (w + rest)
    requires out0 == base + Flatten(Take(all, Min(budget, |done|))) && left0 == budget - Min(budget, |done|)
    requires out1 == out0 + Flatten(Take(w, left0)) && left1 == left0 - Min(left0, |w|)
    ensures all == (done + w) + rest
    ensures out1 == base + Flatten(Take(all, Min(budget, |done + w|))) && left1 == budget - Min(budget, |done + w|)
    ensures rest == [] || left1 == 0 ==>
      out1 == base + Flatten(Take(all, budget)) && left1 == budget - Min(budget, |all|)
  {
    ConcatParts(done, w, rest);
    AttemptNext(base, budget, all, |done|, w, out0, left0, out1, left1);
    if rest == [] || left1 == 0 {
      TakeSettled(all, |done| + |w|, budget);
    }
  }

  /** One turn of the loop: it keeps Serving, or the loop is over and everything owed was attempted. */
  method Turn(input: seq<byte>, pos: nat, store: Store, conn: Conn, ghost base: seq<byte>, ghost budget: nat,
              ghost all: seq<seq<byte>>, ghost done: seq<seq<byte>>)
    returns (next: nat, stop: bool, ghost done': seq<seq<byte>>)
    requires pos <= |input| && all == done + SessionWrites(input[pos..], store)
    requires conn.out == base + Flatten(Take(all, Min(budget, |done|)))
    requires conn.writesLeft == budget - Min(budget, |done|)
    modifies conn
    ensures !stop ==> pos < next <= |input| && all == done' + SessionWrites(input[next..], store)
    ensures !stop ==> conn.out == base + Flatten(Take(all, Min(budget, |done'|)))
    ensures !stop ==> conn.writesLeft == budget - Min(budget, |done'|)
    ensures stop ==> conn.out == base + Flatten(Take(all, budget))
    ensures stop ==> conn.writesLeft == budget - Min(budget, |all|)
  {
    ghost var out0, left0 := conn.out, conn.writesLeft;
    next, stop := HandleRequest(input, pos, store, conn);
    ghost var st := LoopStep(input[pos..], store);
    ghost var w := Writes(st.events);
    ghost var rest := if st.next.Some? then SessionWrites(input[next..], store) else [];
    SessionAt(input, pos, store, next);
    Advance(base, budget, all, done, w, rest, out0, left0, conn.out, conn.writesLeft);
    done' := done + w;
  }

  /**
   * The goroutine that serves one connection: requests are read from
   * `input` until the loop returns. What it writes is exactly the part of
   * the session's writes that the peer accepts.
   */
  method Serve(input: seq<byte>, store: Store, conn: Conn)
    modifies conn
    ensures conn.out == old(conn.out) + Flatten(Take(SessionWrites(input, store), old(conn.writesLeft)))
    ensures conn.writesLeft == old(conn.writesLeft) - Min(old(conn.writesLeft), |SessionWrites(input, store)|)
  {
    ghost var base, budget := conn.out, conn.writesLeft;
    ghost var all := SessionWrites(input, store);
    ghost var done: seq<seq<byte>> := [];
    var pos := 0;
    assert input[pos..] == input;
    while true
      invariant Serving(conn, input, store, base, budget, all, done, pos)
      decreases |input| - pos
    {
      var next, stop;
      next, stop, done := Turn(input, pos, store, conn, base, budget, all, done);
      if stop {
        return;
      }
      pos := next;
    }
  }

  // ---------------------------------------------------------------------
  // What a session answers
  // ---------------------------------------------------------------------

  /** The response to an object, as the loop builds it: the object's hash as a SHA-1 id, its size and type. */
  function FoundResponse(obj: EncodedObject): GetOidResponse
  {
    ObjectResponse(ObjectId(obj.hash + Zeros(12), 1), obj)
  }

  /** A stream that ends at once gets no answer at all. */
  lemma SessionEndOfStream(store: Store)
    ensures Session([], store) == []
  {
    EndOfStreamIsEof();
  }

  /** A flush packet is skipped: the session goes on with the bytes after it. */
  lemma SessionSkipsFlush(rest: seq<byte>, store: Store)
    ensures Session(FlushPkt + rest, store) == Session(rest, store)
  {
    FlushPacketTakesFourBytes(rest);
    assert (FlushPkt + rest)[4..] == rest;
  }

  /** A request that cannot be read is answered with the sentinel, "0009error0000", and nothing after it. */
  lemma SessionReadError(s: seq<byte>, store: Store)
    requires ParseRequest(s).Err?
    ensures Session(s, store) == [Sentinel]
    ensures Flatten(SessionWrites(s, store)) == BytesOf("0009error0000")
  {
    WritesOne(Sentinel);
    ErrorSentinelBytes();
  }

  /** A request for an object the store does not hold is answered with the sentinel only. */
  lemma SessionMissingObject(s: seq<byte>, r: GetOidRequest, n: nat, store: Store)
    requires ParseRequest(s) == Ok(Parsed(GetOid(r), n)) && GitHash(r.oid) !in store
    ensures Session(s, store) == [Sentinel]
  {
  }

  /** Content is asked for, but the object cannot be opened: the sentinel only. */
  lemma SessionNoReader(s: seq<byte>, r: GetOidRequest, n: nat, store: Store)
    requires ParseRequest(s) == Ok(Parsed(GetOid(r), n))
    requires GitHash(r.oid) in store && r.wantContent != 0 && store[GitHash(r.oid)].reader.None?
    ensures Session(s, store) == [Sentinel]
  {
    GitHashToObjectIdExact(store[GitHash(r.oid)].hash);
  }

  /**
   * Content is asked for, but reading it fails or comes back short: the
   * connection ends with no reply and no sentinel.
   */
  lemma SessionShortContent(s: seq<byte>, r: GetOidRequest, n: nat, store: Store)
    requires ParseRequest(s) == Ok(Parsed(GetOid(r), n))
    requires GitHash(r.oid) in store && r.wantContent != 0
    requires var obj := store[GitHash(r.oid)];
      obj.reader.Some? && (obj.reader.value.fails || |obj.reader.value.chunk| < Uint32Of(obj.size))
    ensures Session(s, store) == []
  {
    GitHashToObjectIdExact(store[GitHash(r.oid)].hash);
  }

  /**
   * A request the store answers with a reply: the object is there, and
   * when content is asked for its reader opens and offers Size bytes.
   */
  ghost predicate Servable(get: GetOidRequest, store: Store)
  {
    && GitHash(get.oid) in store
    && var obj := store[GitHash(get.oid)];
       get.wantContent != 0 ==>
         obj.reader.Some? && !obj.reader.value.fails && |obj.reader.value.chunk| >= Uint32Of(obj.size)
  }

  /** The reply to a servable request: the object's response, with its first Size bytes iff content was asked for. */
  function ReplyOf(get: GetOidRequest, store: Store): Event
    requires Servable(get, store)
  {
    var obj := store[GitHash(get.oid)];
    var resp := FoundResponse(obj);
    Reply(resp, if get.wantContent != 0 then Some(obj.reader.value.chunk[..resp.size]) else None)
  }

  /**
   * The answer to a request for an object the store holds: the reply
   * carries the object's hash (bytes 20..31 zero, SHA-1), its size cut to
   * 32 bits and its type; it carries Size bytes of content exactly when
   * content was asked for; and in a consistent store the reply names the
   * object that was asked for.
   */
  lemma AnswerFound(get: GetOidRequest, store: Store)
    requires Servable(get, store)
    ensures var obj := store[GitHash(get.oid)];
      var resp := FoundResponse(obj);
      && Answer(get, store) == Reaction([Reply(resp,
           if get.wantContent != 0 then Some(obj.reader.value.chunk[..resp.size]) else None)], true)
      && resp.key == OidKey && resp.oid.hashAlgo == 1 && resp.oid.hash[..20] == obj.hash
      && resp.size == Uint32Of(obj.size) && resp.typ == obj.typ as int32
      && GitHash(resp.oid) == obj.hash
      && (Consistent(store) ==> GitHash(resp.oid) == GitHash(get.oid))
  {
    var obj := store[GitHash(get.oid)];
    GitHashToObjectIdExact(obj.hash);
    assert (obj.hash + Zeros(12))[..20] == obj.hash;
  }

  /** A request the store can serve gets its reply, and the session goes on after the request's bytes. */
  lemma SessionFoundObject(s: seq<byte>, r: GetOidRequest, n: nat, store: Store)
    requires ParseRequest(s) == Ok(Parsed(GetOid(r), n)) && Servable(r, store)
    ensures Session(s, store) == [ReplyOf(r, store)] + Session(s[n..], store)
  {
    AnswerFound(r, store);
  }

  /** The sentinel, when it is sent, is the last thing a session sends. */
  lemma {:induction false} SentinelOnlyLast(s: seq<byte>, store: Store)
    ensures forall i :: 0 <= i < |Session(s, store)| && Session(s, store)[i].Sentinel? ==> i == |Session(s, store)| - 1
    decreases |s|
  {
    var st := LoopStep(s, store);
    assert |st.events| <= 1;
    if st.next.Some? {
      var tail := Session(s[st.next.value..], store);
      SentinelOnlyLast(s[st.next.value..], store);
      assert st.events == [] || st.events[0].Reply?;
      assert Session(s, store) == st.events + tail;
    }
  }

  /** The frames of a run of requests, one after another. */
  function Frames(rs: seq<GetOidRequest>): seq<byte>
  {
    if rs == [] then [] else EncodeGetOidFrame(rs[0]) + Frames(rs[1..])
  }

  /** Requests the store serves. */
  ghost predicate AllServable(rs: seq<GetOidRequest>, store: Store)
  {
    forall i :: 0 <= i < |rs| ==> Servable(rs[i], store)
  }

  /** Their replies, in order. */
  function Replies(rs: seq<GetOidRequest>, store: Store): seq<Event>
    requires AllServable(rs, store)
  {
    if rs == [] then [] else [ReplyOf(rs[0], store)] + Replies(rs[1..], store)
  }

  lemma FramesCons(rs: seq<GetOidRequest>, rest: seq<byte>)
    requires rs != []
    ensures Frames(rs) + rest == EncodeGetOidFrame(rs[0]) + (Frames(rs[1..]) + rest)
  {
  }

  lemma RepliesCons(rs: seq<GetOidRequest>, store: Store)
    requires rs != [] && AllServable(rs, store)
    ensures AllServable(rs[1..], store) && Servable(rs[0], store)
    ensures Replies(rs, store) == [ReplyOf(rs[0], store)] + Replies(rs[1..], store)
  {
    assert forall i :: 0 <= i < |rs| - 1 ==> rs[1..][i] == rs[i + 1];
  }

  /** The replies of a run are one per request, each the reply to that request. */
  lemma {:induction false} RepliesOnePerRequest(rs: seq<GetOidRequest>, store: Store)
    requires AllServable(rs, store)
    ensures |Replies(rs, store)| == |rs|
    ensures forall i :: 0 <= i < |rs| ==> Replies(rs, store)[i] == ReplyOf(rs[i], store)
    decreases |rs|
  {
    if rs != [] {
      RepliesCons(rs, store);
      RepliesOnePerRequest(rs[1..], store);
      assert forall i :: 1 <= i < |rs| ==> Replies(rs, store)[i] == Replies(rs[1..], store)[i - 1];
    }
  }

  /** The first request of a run of frames is served, and the rest follow its 65 bytes. */
  lemma ServesFirst(r: GetOidRequest, tail: seq<byte>, store: Store)
    requires Servable(r, store)
    ensures Session(EncodeGetOidFrame(r) + tail, store) == [ReplyOf(r, store)] + Session(tail, store)
  {
    GetOidRoundTrip(r, tail);
    SessionFoundObject(EncodeGetOidFrame(r) + tail, r, 65, store);
    assert (EncodeGetOidFrame(r) + tail)[65..] == tail;
  }

  /** Requests the store can serve are answered one reply each, in the order they came. */
  lemma {:induction false} SessionServesInOrder(rs: seq<GetOidRequest>, rest: seq<byte>, store: Store)
    requires AllServable(rs, store)
    ensures Session(Frames(rs) + rest, store) == Replies(rs, store) + Session(rest, store)
    decreases |rs|
  {
    if rs == [] {
      assert Frames(rs) + rest == rest;
    } else {
      var tail := Frames(rs[1..]) + rest;
      FramesCons(rs, rest);
      RepliesCons(rs, store);
      ServesFirst(rs[0], tail, store);
      SessionServesInOrder(rs[1..], rest, store);
      EventsAssoc([ReplyOf(rs[0], store)], Replies(rs[1..], store), Session(rest, store));
    }
  }

  lemma EventsAssoc(a: seq<Event>, b: seq<Event>, c: seq<Event>)
    ensures a + (b + c) == (a + b) + c
  {
  }
}
