/**
 * Command keys and object identities (internal/ipc/types.go), and the
 * flush packet that terminates every frame.
 */
module IpcTypes {
  import opened Wrappers
  import opened Encoding

  /** A 16-byte, null-padded command name. */
  type Key = k: seq<byte> | |k| == 16 witness Zeros(16)

  /** A 20-byte git object hash (plumbing.Hash). */
  type Hash20 = h: seq<byte> | |h| == 20 witness Zeros(20)

  /** The 32-byte hash buffer of an ObjectId. */
  type Hash32 = h: seq<byte> | |h| == 32 witness Zeros(32)

  /** The packet "0000": a flush packet on its own, and the terminator of every frame. */
  const FlushPkt: seq<byte> := [0x30, 0x30, 0x30, 0x30]

  /** Comparing a packet's text with "0000" is comparing its bytes with FlushPkt. */
  lemma FlushPktText(b: seq<byte>)
    ensures StringOf(FlushPkt) == "0000" && FlushPkt == BytesOf("0000")
    ensures StringOf(b) == "0000" <==> b == FlushPkt
  {
    if StringOf(b) == "0000" {
      StringOfInjective(b, FlushPkt);
    }
  }

  /** `[16]byte{'o', 'i', 'd'}`, the key of a GetOid request and response. */
  const OidKey: Key := BytesOf("oid") + Zeros(13)

  // ---------------------------------------------------------------------
  // Key.ToString: bytes.Trim(k[:], "\x00")
  // ---------------------------------------------------------------------

  function TrimLeft(b: seq<byte>): (r: seq<byte>)
    ensures |r| <= |b| && r == b[|b| - |r|..]
    ensures forall i :: 0 <= i < |b| - |r| ==> b[i] == 0
    ensures r == [] || r[0] != 0
  {
    if b != [] && b[0] == 0 then
      var r := TrimLeft(b[1..]);
      assert b[1..][|b| - 1 - |r|..] == b[|b| - |r|..];
      assert forall i :: 1 <= i < |b| - |r| ==> b[i] == b[1..][i - 1];
      r
    else b
  }

  function TrimRight(b: seq<byte>): (r: seq<byte>)
    ensures |r| <= |b| && r == b[..|r|]
    ensures forall i :: |r| <= i < |b| ==> b[i] == 0
    ensures r == [] || r[|r| - 1] != 0
  {
    if b != [] && b[|b| - 1] == 0 then TrimRight(b[..|b| - 1]) else b
  }

  /** A sequence that is zero outside [lead, lead + len) is that middle part, padded. */
  lemma PaddedSplit(b: seq<byte>, lead: nat, len: nat)
    requires lead + len <= |b|
    requires forall i :: 0 <= i < lead ==> b[i] == 0
    requires forall i :: lead + len <= i < |b| ==> b[i] == 0
    ensures b == Zeros(lead) + b[lead..lead + len] + Zeros(|b| - len - lead)
  {
    var p := Zeros(lead) + b[lead..lead + len] + Zeros(|b| - len - lead);
    assert forall i :: 0 <= i < |b| ==> b[i] == p[i];
  }

  /** Removes every leading and every trailing zero byte; interior zeros stay. */
  function Trim(b: seq<byte>): (r: seq<byte>)
    ensures r == [] || (r[0] != 0 && r[|r| - 1] != 0)
    ensures exists lead :: 0 <= lead <= |b| - |r| && b == Zeros(lead) + r + Zeros(|b| - |r| - lead)
  {
    var l := TrimLeft(b);
    var r := TrimRight(l);
    PaddedSplit(b, |b| - |l|, |r|);
    r
  }

  function ToString(k: Key): (s: string)
    ensures |s| <= 16
    ensures s == [] || (s[0] != '\0' && s[|s| - 1] != '\0')
  {
    StringOf(Trim(k))
  }

  lemma {:induction false} TrimLeftOfZeros(p: nat, m: seq<byte>)
    requires m == [] || m[0] != 0
    ensures TrimLeft(Zeros(p) + m) == m
    decreases p
  {
    if p > 0 {
      assert (Zeros(p) + m)[1..] == Zeros(p - 1) + m;
      TrimLeftOfZeros(p - 1, m);
    } else {
      assert Zeros(p) + m == m;
    }
  }

  lemma {:induction false} TrimRightOfZeros(m: seq<byte>, q: nat)
    requires m == [] || m[|m| - 1] != 0
    ensures TrimRight(m + Zeros(q)) == m
    decreases q
  {
    if q > 0 {
      var x := m + Zeros(q);
      assert x[|x| - 1] == 0;
      assert x[..|x| - 1] == m + Zeros(q - 1);
      assert TrimRight(x) == TrimRight(x[..|x| - 1]);
      TrimRightOfZeros(m, q - 1);
    } else {
      assert m + Zeros(q) == m;
    }
  }

  /** Trim is exactly "strip the zero padding on both sides". */
  lemma TrimOfPadded(p: nat, m: seq<byte>, q: nat)
    requires m == [] || (m[0] != 0 && m[|m| - 1] != 0)
    ensures Trim(Zeros(p) + m + Zeros(q)) == m
  {
    if m == [] {
      assert Zeros(p) + m + Zeros(q) == Zeros(p + q) + [];
      TrimLeftOfZeros(p + q, []);
    } else {
      assert Zeros(p) + m + Zeros(q) == Zeros(p) + (m + Zeros(q));
      TrimLeftOfZeros(p, m + Zeros(q));
      TrimRightOfZeros(m, q);
    }
  }

  lemma OidKeyIsOid()
    ensures ToString(OidKey) == "oid"
  {
    assert OidKey == Zeros(0) + BytesOf("oid") + Zeros(13);
    TrimOfPadded(0, BytesOf("oid"), 13);
  }

  /** Zeros between the characters of a key are part of its name. */
  lemma InteriorZerosKept()
    ensures ToString(Zeros(2) + [0x61, 0, 0x62] + Zeros(11)) == "a\0b"
  {
    TrimOfPadded(2, [0x61, 0, 0x62], 11);
  }

  // ---------------------------------------------------------------------
  // ObjectId
  // ---------------------------------------------------------------------

  /** A hash buffer and its algorithm; algorithm 1 (SHA-1) uses the first 20 bytes. */
  datatype ObjectId = ObjectId(hash: Hash32, hashAlgo: int32)

  /** The Go zero value of ObjectId. */
  const ZeroOid: ObjectId := ObjectId(Zeros(32), 0)

  /** ObjectId.Hex. */
  function Hex(oid: ObjectId): (s: string)
    ensures |s| == if oid.hashAlgo == 1 then 40 else 64
    ensures forall i :: 0 <= i < |s| ==> IsLowerHexDigit(s[i])
  {
    if oid.hashAlgo == 1 then EncodeToString(oid.hash[..20]) else EncodeToString(oid.hash)
  }

  /** Hex renders the algorithm's bytes and nothing else. */
  lemma HexDecodes(oid: ObjectId)
    ensures DecodeString(Hex(oid)) == Ok(if oid.hashAlgo == 1 then oid.hash[..20] else oid.hash)
  {
    if oid.hashAlgo == 1 {
      DecodeEncodeString(oid.hash[..20]);
    } else {
      DecodeEncodeString(oid.hash);
    }
  }

  /**
   * plumbing.NewHash: decode the hex (ignoring any error) into a zeroed
   * 20-byte hash. Well-formed hex gives its first 20 bytes, or all of its
   * bytes followed by zeros when there are fewer.
   */
  function NewHash(s: string): (h: Hash20)
    ensures DecodeString(s).Ok? && |DecodeString(s).value| >= 20 ==> h == DecodeString(s).value[..20]
    ensures DecodeString(s).Ok? && |DecodeString(s).value| < 20 ==>
      h == DecodeString(s).value + Zeros(20 - |DecodeString(s).value|)
  {
    var b := DecodedPrefix(s);
    var n := Min(20, |b|);
    b[..n] + Zeros(20 - n)
  }

  /** ObjectId.GitHash: whatever the algorithm, the id's first 20 hash bytes. */
  function GitHash(oid: ObjectId): (h: Hash20)
    ensures h == oid.hash[..20]
  {
    HexDecodes(oid);
    assert oid.hash[..20][..20] == oid.hash[..20];
    NewHash(Hex(oid))
  }

  /** For SHA-1 ids, bytes 20..31 of the buffer are invisible to Hex and GitHash. */
  lemma Sha1TailIgnored(a: ObjectId, b: ObjectId)
    requires a.hashAlgo == 1 && b.hashAlgo == 1
    requires a.hash[..20] == b.hash[..20]
    ensures Hex(a) == Hex(b) && GitHash(a) == GitHash(b)
  {
  }
}
