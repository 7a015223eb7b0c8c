/**
 * The wire format of the CT submission protocol, as the client in
 * src/client/ct.cc writes and reads it. Both directions use the same frame:
 *
 *   byte[1]  version
 *   byte[1]  command (outbound) or response code (inbound)
 *   byte[3]  length, unsigned, most significant byte first
 *   byte[length] payload
 *
 * Everything here is pure: the client's loops in module Client are proved
 * against these functions.
 */
module Wire {

  newtype byte = x: int | 0 <= x < 256

  datatype Option<+T> = None | Some(value: T)

  /** The protocol version the client writes and expects back (CTClient::VERSION). */
  const VERSION: byte := 0

  /** The command and response codes of ct.h; their numeric values are not part of this model. */
  const UPLOAD_BUNDLE: byte
  const SUBMITTED: byte

  /** Width of the length field of a frame, and the size of the whole header. */
  const LENGTH_BYTES: nat := 3
  const HEADER_SIZE: nat := 2 + LENGTH_BYTES

  /** 256^k, i.e. 1 << (8 * k). */
  function Pow256(k: nat): (r: nat)
    ensures 0 < r
  {
    if k == 0 then 1 else 256 * Pow256(k - 1)
  }

  // ---------------------------------------------------------------------------
  // Multi-byte big-endian integers (writeLength / readLength)
  // ---------------------------------------------------------------------------

  /** The low k bytes of n, most significant first. */
  function EncodeLength(n: nat, k: nat): (r: seq<byte>)
    ensures |r| == k
  {
    if k == 0 then [] else EncodeLength(n / 256, k - 1) + [(n % 256) as byte]
  }

  /** The value of bs read most significant byte first: the accumulation
      length = (length << 8) + b over the bytes in order. */
  function DecodeLength(bs: seq<byte>): (r: nat)
    ensures r < Pow256(|bs|)
  {
    if bs == [] then 0 else DecodeLength(bs[..|bs| - 1]) * 256 + bs[|bs| - 1] as nat
  }

  lemma MulAtLeast(d: nat, x: nat)
    requires 1 <= x
    ensures d <= d * x
  {
    if x > 1 {
      MulAtLeast(d, x - 1);
      assert d * x == d * (x - 1) + d;
    }
  }

  lemma MulDistributes(a: int, x: int, y: int)
    ensures a * (x + y) == a * x + a * y
  {
  }

  lemma MulAssociates(a: int, b: int, c: int)
    ensures a * (b * c) == (a * b) * c
  {
  }

  lemma DivUnique(n: int, d: int, q: int, r: int)
    requires 0 < d && 0 <= r < d && n == d * q + r
    ensures n / d == q
  {
    var q', r' := n / d, n % d;
    assert n == d * q' + r' && 0 <= r' < d;
    if q' < q {
      MulDistributes(d, q', q - q');
      MulAtLeast(d, q - q');
    } else if q < q' {
      MulDistributes(d, q, q' - q);
      MulAtLeast(d, q' - q);
    }
  }

  /** If r2 < b then a * r2 + r < a * b for every r < a. */
  lemma MulBound(a: nat, b: nat, r: nat, r2: nat)
    requires r < a && r2 < b
    ensures a * r2 + r < a * b
  {
    MulDistributes(a, r2, b - r2);
    MulAtLeast(a, b - r2);
  }

  lemma DivDiv(n: nat, a: nat, b: nat)
    requires 0 < a && 0 < b
    ensures n / a / b == n / (a * b)
  {
    var q, r := n / a, n % a;
    var q2, r2 := q / b, q % b;
    assert n == a * q + r && r < a;
    assert q == b * q2 + r2 && r2 < b;
    MulDistributes(a, b * q2, r2);
    MulAssociates(a, b, q2);
    MulBound(a, b, r, r2);
    DivUnique(n, a * b, q2, a * r2 + r);
  }

  /** Splitting off the last byte of a value that fits in k + 1 bytes. */
  lemma SplitLowByte(n: nat, p: nat)
    requires n < 256 * p
    ensures n / 256 < p && (n / 256) * 256 + n % 256 == n
  {
  }

  /** Byte j of a k-byte encoding is (n >> 8 * (k - 1 - j)) & 0xff. */
  lemma {:induction false} EncodeLengthAt(n: nat, k: nat, j: nat)
    requires j < k
    ensures EncodeLength(n, k)[j] as int == (n / Pow256(k - 1 - j)) % 256
  {
    if j < k - 1 {
      EncodeLengthAt(n / 256, k - 1, j);
      DivDiv(n, 256, Pow256(k - 2 - j));
    }
  }

  /** Decoding a k-byte encoding of a value that fits in k bytes gives the value back. */
  lemma {:induction false} DecodeEncodeLength(n: nat, k: nat)
    requires n < Pow256(k)
    ensures DecodeLength(EncodeLength(n, k)) == n
  {
    if k > 0 {
      var e, high, low := EncodeLength(n, k), EncodeLength(n / 256, k - 1), (n % 256) as byte;
      assert e == high + [low];
      assert e[..|e| - 1] == high && e[|e| - 1] == low;
      assert DecodeLength(e) == DecodeLength(high) * 256 + low as nat;
      assert Pow256(k) == 256 * Pow256(k - 1);
      SplitLowByte(n, Pow256(k - 1));
      DecodeEncodeLength(n / 256, k - 1);
    }
  }

  /** Encoding a decoded field at its own width gives the field back. */
  lemma {:induction false} EncodeDecodeLength(bs: seq<byte>)
    ensures EncodeLength(DecodeLength(bs), |bs|) == bs
  {
    if bs != [] {
      var init := bs[..|bs| - 1];
      EncodeDecodeLength(init);
      assert DecodeLength(bs) / 256 == DecodeLength(init);
      assert bs == init + [bs[|bs| - 1]];
    }
  }

  // ---------------------------------------------------------------------------
  // Frames
  // ---------------------------------------------------------------------------

  /** One frame: a command frame (tag = command) or a response frame (tag = code). */
  datatype Frame = Frame(version: byte, tag: byte, body: seq<byte>)

  predicate Encodable(f: Frame) {
    |f.body| < Pow256(LENGTH_BYTES)
  }

  function EncodeFrame(f: Frame): (r: seq<byte>)
    requires Encodable(f)
    ensures |r| == HEADER_SIZE + |f.body|
  {
    [f.version, f.tag] + EncodeLength(|f.body|, LENGTH_BYTES) + f.body
  }

  /** Reads bytes as exactly one frame: a 5-byte header whose length field
      accounts for every remaining byte. */
  function DecodeFrame(bytes: seq<byte>): Option<Frame>
  {
    if |bytes| < HEADER_SIZE then None
    else
      var length := DecodeLength(bytes[2..HEADER_SIZE]);
      if |bytes| != HEADER_SIZE + length then None
      else Some(Frame(bytes[0], bytes[1], bytes[HEADER_SIZE..]))
  }

  /** The header of an encoded frame, byte by byte: version, tag, then
      L >> 16, L >> 8 and L, each masked to 8 bits, where L = |body|. */
  lemma EncodeFrameHeader(f: Frame)
    requires Encodable(f)
    ensures EncodeFrame(f)[..HEADER_SIZE] ==
      [f.version, f.tag, ((|f.body| / 65536) % 256) as byte,
       ((|f.body| / 256) % 256) as byte, (|f.body| % 256) as byte]
    ensures EncodeFrame(f)[HEADER_SIZE..] == f.body
  {
    var e := EncodeFrame(f);
    EncodeLengthAt(|f.body|, LENGTH_BYTES, 0);
    EncodeLengthAt(|f.body|, LENGTH_BYTES, 1);
    EncodeLengthAt(|f.body|, LENGTH_BYTES, 2);
    assert e[2..HEADER_SIZE] == EncodeLength(|f.body|, LENGTH_BYTES);
  }

  lemma DecodeEncodeFrame(f: Frame)
    requires Encodable(f)
    ensures DecodeFrame(EncodeFrame(f)) == Some(f)
  {
    var e := EncodeFrame(f);
    assert e[2..HEADER_SIZE] == EncodeLength(|f.body|, LENGTH_BYTES);
    DecodeEncodeLength(|f.body|, LENGTH_BYTES);
    assert e[HEADER_SIZE..] == f.body;
  }

  lemma EncodeDecodeFrame(bytes: seq<byte>)
    requires DecodeFrame(bytes).Some?
    ensures Encodable(DecodeFrame(bytes).value)
    ensures EncodeFrame(DecodeFrame(bytes).value) == bytes
  {
    var f := DecodeFrame(bytes).value;
    EncodeDecodeLength(bytes[2..HEADER_SIZE]);
    assert bytes == [bytes[0], bytes[1]] + bytes[2..HEADER_SIZE] + bytes[HEADER_SIZE..];
  }

  // ---------------------------------------------------------------------------
  // Replies read from the stream (CTClient::readResponse)
  // ---------------------------------------------------------------------------

  /** What reading one response off the stream yields. */
  datatype Reply =
    | Received(code: byte, data: seq<byte>)  // a whole frame carrying VERSION
    | WrongVersion(version: byte)            // the first byte was not VERSION
    | Closed                                 // the stream ended inside the frame

  /** The reply the client reads from the bytes still to come on the stream. */
  function ExpectReply(input: seq<byte>): Reply
  {
    if |input| == 0 then Closed
    else if input[0] != VERSION then WrongVersion(input[0])
    else if |input| < HEADER_SIZE then Closed
    else
      var length := DecodeLength(input[2..HEADER_SIZE]);
      if |input| < HEADER_SIZE + length then Closed
      else Received(input[1], input[HEADER_SIZE..HEADER_SIZE + length])
  }

  /** How many bytes of input that read consumes. */
  function ReplySize(input: seq<byte>): (n: nat)
    ensures n <= |input|
    ensures ExpectReply(input).WrongVersion? ==> n == 1
    ensures ExpectReply(input).Closed? ==> n == |input|
    ensures ExpectReply(input).Received? ==> n == HEADER_SIZE + |ExpectReply(input).data|
  {
    if |input| == 0 then 0
    else if input[0] != VERSION then 1
    else if |input| < HEADER_SIZE then |input|
    else
      var length := DecodeLength(input[2..HEADER_SIZE]);
      if |input| < HEADER_SIZE + length then |input|
      else HEADER_SIZE + length
  }

  /** A well-formed response frame at the head of the stream is read exactly,
      leaving whatever follows it. */
  lemma ReplyOfFrame(f: Frame, rest: seq<byte>)
    requires Encodable(f) && f.version == VERSION
    ensures ExpectReply(EncodeFrame(f) + rest) == Received(f.tag, f.body)
    ensures ReplySize(EncodeFrame(f) + rest) == |EncodeFrame(f)|
  {
    var e := EncodeFrame(f);
    var input := e + rest;
    assert input[2..HEADER_SIZE] == EncodeLength(|f.body|, LENGTH_BYTES);
    DecodeEncodeLength(|f.body|, LENGTH_BYTES);
    assert input[HEADER_SIZE..HEADER_SIZE + |f.body|] == f.body;
  }

  /** Conversely, the bytes a successful read consumes form one frame. */
  lemma ReplyIsFrame(input: seq<byte>)
    requires ExpectReply(input).Received?
    ensures DecodeFrame(input[..ReplySize(input)])
      == Some(Frame(VERSION, ExpectReply(input).code, ExpectReply(input).data))
  {
    var consumed := input[..ReplySize(input)];
    assert consumed[2..HEADER_SIZE] == input[2..HEADER_SIZE];
    assert consumed[HEADER_SIZE..] == input[HEADER_SIZE..ReplySize(input)];
  }
}
