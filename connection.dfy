/**
 * The two sides of a `net.Conn` as the protocol uses them.
 *
 * The read side is the whole byte stream the peer sends, with a cursor
 * that only moves forward; `ReadFull` is `io.ReadFull` into a buffer.
 *
 * The write side is `Conn`: what has been written so far, and how many more
 * `Write` calls the peer will still accept. Once the peer is gone every
 * further write fails and writes nothing, so the bytes a server emits are
 * always a prefix, counted in whole writes, of what it would emit to a peer
 * that never leaves (see `Take`).
 */
module Connection {
  import opened Encoding

  /** io.ReadFull's outcome: nil, io.EOF (nothing read) or io.ErrUnexpectedEOF. */
  datatype ReadStatus = Full | AtEof | Truncated

  /** io.ReadFull(conn, buf), reading from position `pos` of the input. */
  method ReadFull(conn: seq<byte>, pos: nat, buf: array<byte>) returns (n: nat, status: ReadStatus)
    requires pos <= |conn|
    modifies buf
    ensures n == Min(buf.Length, |conn| - pos)
    ensures buf[..n] == conn[pos..pos + n]
    ensures status == (if n == buf.Length then Full else if n == 0 then AtEof else Truncated)
  {
    n := 0;
    while n < buf.Length && pos + n < |conn|
      invariant n <= buf.Length && pos + n <= |conn|
      invariant forall k :: 0 <= k < n ==> buf[k] == conn[pos + k]
    {
      buf[n] := conn[pos + n];
      n := n + 1;
    }
    status := if n == buf.Length then Full else if n == 0 then AtEof else Truncated;
  }

  class Conn {
    /** Everything written to the connection so far. */
    var out: seq<byte>
    /** How many more writes the peer accepts before it goes away. */
    var writesLeft: nat

    constructor (budget: nat)
      ensures out == [] && writesLeft == budget
    {
      out := [];
      writesLeft := budget;
    }

    /** conn.Write(b): all of `b`, or (once the peer is gone) nothing and an error. */
    method Write(b: seq<byte>) returns (ok: bool)
      modifies this
      ensures ok <==> old(writesLeft) > 0
      ensures out == if ok then old(out) + b else old(out)
      ensures writesLeft == if ok then old(writesLeft) - 1 else 0
    {
      ok := writesLeft > 0;
      if ok {
        out := out + b;
        writesLeft := writesLeft - 1;
      }
    }
  }

  /** The bytes of a sequence of writes, in order. */
  function Flatten(w: seq<seq<byte>>): seq<byte>
  {
    if w == [] then [] else Flatten(w[..|w| - 1]) + w[|w| - 1]
  }

  /** The writes that succeed when only `n` are accepted. */
  function Take(w: seq<seq<byte>>, n: nat): (t: seq<seq<byte>>)
    ensures |t| == Min(n, |w|) && t == w[..|t|]
  {
    w[..Min(n, |w|)]
  }

  lemma FlattenOne(a: seq<byte>)
    ensures Flatten([a]) == a
  {
    assert [a][..0] == [];
  }

  lemma FlattenThree(a: seq<byte>, b: seq<byte>, c: seq<byte>)
    ensures Flatten([a, b, c]) == a + b + c
  {
    assert [a, b, c][..2] == [a, b];
    assert [a, b][..1] == [a];
    FlattenOne(a);
  }

  lemma FlattenFour(a: seq<byte>, b: seq<byte>, c: seq<byte>, d: seq<byte>)
    ensures Flatten([a, b, c, d]) == a + b + c + d
  {
    assert [a, b, c, d][..3] == [a, b, c];
    FlattenThree(a, b, c);
  }

  lemma {:induction false} FlattenAppend(a: seq<seq<byte>>, b: seq<seq<byte>>)
    ensures Flatten(a + b) == Flatten(a) + Flatten(b)
    decreases |b|
  {
    if b == [] {
      assert a + b == a;
    } else {
      assert (a + b)[..|a + b| - 1] == a + b[..|b| - 1];
      FlattenAppend(a, b[..|b| - 1]);
    }
  }

  /** One more accepted write extends the output by exactly that write. */
  lemma TakeOneMore(w: seq<seq<byte>>, n: nat)
    requires n < |w|
    ensures Flatten(Take(w, n + 1)) == Flatten(Take(w, n)) + w[n]
  {
    assert Take(w, n + 1)[..n] == Take(w, n);
  }

  /**
   * The state of a connection after the first `i` writes of `w` were
   * attempted, starting from output `base` and budget `budget`.
   */
  ghost predicate Attempted(c: Conn, base: seq<byte>, budget: nat, w: seq<seq<byte>>, i: nat)
    reads c
    requires i <= |w|
  {
    && c.out == base + Flatten(Take(w, Min(budget, i)))
    && c.writesLeft == budget - Min(budget, i)
  }

  /** Attempting write `i` of `w`, which is `b`, keeps Attempted up to date. */
  method Send(c: Conn, b: seq<byte>, ghost base: seq<byte>, ghost budget: nat, ghost w: seq<seq<byte>>, ghost i: nat)
    returns (ok: bool)
    requires i < |w| && b == w[i] && Attempted(c, base, budget, w, i)
    modifies c
    ensures Attempted(c, base, budget, w, i + 1)
    ensures ok <==> budget > i
  {
    ok := c.Write(b);
    if ok {
      TakeOneMore(w, i);
    }
  }

  /**
   * Attempting the writes `w` that follow the first `i` writes of `all`,
   * with whatever budget the first `i` left, is attempting the first
   * `i + |w|` writes of `all`.
   */
  lemma TakeMore(all: seq<seq<byte>>, i: nat, w: seq<seq<byte>>, budget: nat)
    requires i + |w| <= |all| && all[i..i + |w|] == w
    ensures Flatten(Take(all, Min(budget, i))) + Flatten(Take(w, budget - Min(budget, i)))
      == Flatten(Take(all, Min(budget, i + |w|)))
    ensures (budget - Min(budget, i)) - Min(budget - Min(budget, i), |w|) == budget - Min(budget, i + |w|)
  {
    if budget <= i {
      assert Take(w, 0) == [];
    } else {
      assert Take(all, Min(budget, i + |w|)) == all[..i] + Take(w, budget - i);
      FlattenAppend(all[..i], Take(w, budget - i));
    }
  }

  /**
   * The output and budget after attempting `w`, when `w` comes after the
   * first `|done|` writes of `all` and those were attempted before.
   */
  lemma AttemptNext(base: seq<byte>, budget: nat, all: seq<seq<byte>>, done: nat, w: seq<seq<byte>>,
                    out0: seq<byte>, left0: nat, out1: seq<byte>, left1: nat)
    requires done + |w| <= |all| && all[done..done + |w|] == w
    requires out0 == base + Flatten(Take(all, Min(budget, done))) && left0 == budget - Min(budget, done)
    requires out1 == out0 + Flatten(Take(w, left0)) && left1 == left0 - Min(left0, |w|)
    ensures out1 == base + Flatten(Take(all, Min(budget, done + |w|)))
    ensures left1 == budget - Min(budget, done + |w|)
  {
    TakeMore(all, done, w, budget);
    AppendAssoc(base, Flatten(Take(all, Min(budget, done))), Flatten(Take(w, left0)));
  }

  lemma AppendAssoc(a: seq<byte>, b: seq<byte>, c: seq<byte>)
    ensures (a + b) + c == a + (b + c)
  {
  }

  /** Once every write was attempted, or the budget is spent, the rest are as good as attempted. */
  lemma TakeSettled(all: seq<seq<byte>>, i: nat, budget: nat)
    requires i <= |all| && (i == |all| || budget <= i)
    ensures Take(all, Min(budget, i)) == Take(all, budget)
    ensures budget - Min(budget, i) == budget - Min(budget, |all|)
  {
  }
}
