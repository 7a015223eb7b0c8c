/**
 * The CT submission client of src/client/ct.cc: the loops that push a whole
 * buffer into the socket and pull an exact byte count out of it, the
 * field-level writers and readers built on them, and the one exchange the
 * client performs (uploadBundle, then readResponse).
 */
module Client {
  import opened Wire
  import opened HexEncoding

  /**
   * The connected socket behind CTClient::fd_, reduced to the bytes it
   * carries: what has been written to it so far, and what the peer has sent
   * that has not been read yet (after which the peer closes the connection).
   * One call of WriteSome or ReadSome is one ::write or ::read, which may
   * move fewer bytes than asked for.
   */
  class Stream {
    var sent: seq<byte>
    var pending: seq<byte>

    constructor (incoming: seq<byte>)
      ensures sent == [] && pending == incoming
    {
      sent := [];
      pending := incoming;
    }

    /** ::write: the transport accepts some non-empty prefix of the request. */
    method WriteSome(buf: seq<byte>, offset: nat, count: nat) returns (n: int)
      requires 0 < count && offset + count <= |buf|
      modifies this
      ensures 0 < n <= count
      ensures sent == old(sent) + buf[offset..offset + n]
      ensures pending == old(pending)
    {
      n :| 0 < n <= count;
      sent := sent + buf[offset..offset + n];
    }

    /** ::read: the transport delivers some non-empty prefix of the pending
        bytes into buf[offset..], or 0 once the peer has closed the stream. */
    method ReadSome(buf: array<byte>, offset: nat, count: nat) returns (n: int)
      requires 0 < count && offset + count <= buf.Length
      modifies this, buf
      ensures sent == old(sent)
      ensures old(pending) == [] ==> n == 0 && pending == [] && buf[..] == old(buf[..])
      ensures old(pending) != [] ==>
        && 0 < n <= count && n <= |old(pending)|
        && pending == old(pending)[n..]
        && buf[..] == old(buf[..offset]) + old(pending)[..n] + old(buf[offset + n..])
    {
      if pending == [] {
        return 0;
      }
      n :| 0 < n <= count && n <= |pending|;
      forall i | offset <= i < offset + n {
        buf[i] := pending[i - offset];
      }
      pending := pending[n..];
    }
  }

  /** The reply record readResponse fills in. */
  class CTResponse {
    var code: byte
    var data: seq<byte>

    constructor ()
      ensures data == []
    {
      data := [];
    }
  }

  /** Range of size_t: CTClient::readLength accumulates in one. */
  const SIZE_T_RANGE: nat := 0x1_0000_0000_0000_0000

  lemma ModAccumulate(x: nat, b: nat, m: nat)
    requires 0 < m
    ensures ((x % m) * 256 + b) % m == (x * 256 + b) % m
  {
    var q, r := x / m, x % m;
    assert x * 256 + b == m * (q * 256) + (r * 256 + b) by {
      assert x == m * q + r;
      assert x * 256 == (m * q) * 256 + r * 256;
      assert (m * q) * 256 == m * (q * 256);
    }
    var q', r' := (r * 256 + b) / m, (r * 256 + b) % m;
    assert r * 256 + b == m * q' + r';
    assert x * 256 + b == m * (q * 256 + q') + r' by {
      assert m * (q * 256) + m * q' == m * (q * 256 + q');
    }
    DivUnique(x * 256 + b, m, q * 256 + q', r');
  }

  lemma ModOfSmall(x: nat, m: nat)
    requires x < m
    ensures x % m == x
  {
    DivUnique(x, m, 0, x);
  }

  class CTClient {
    const fd: Stream

    /** Stands in for the constructor of the source, which opens and
        connects the socket; here the connected stream is given. */
    constructor (fd: Stream)
      ensures this.fd == fd
    {
      this.fd := fd;
    }

    /** CTClient::uploadBundle: one command frame out, one response in. */
    method UploadBundle(bundle: seq<byte>) returns (reply: Reply, token: Option<string>)
      requires |bundle| < Pow256(LENGTH_BYTES)
      modifies fd
      ensures fd.sent == old(fd.sent) + EncodeFrame(Frame(VERSION, UPLOAD_BUNDLE, bundle))
      ensures DecodeFrame(fd.sent[|old(fd.sent)|..]) == Some(Frame(VERSION, UPLOAD_BUNDLE, bundle))
      ensures reply == ExpectReply(old(fd.pending))
      ensures fd.pending == old(fd.pending)[ReplySize(old(fd.pending))..]
      ensures token.Some? <==> reply.Received? && reply.code == SUBMITTED
      ensures token.Some? ==> token.value == Hex(reply.data)
    {
      WriteCommand(UPLOAD_BUNDLE, |bundle|);
      Write(bundle, |bundle|);
      assert bundle[..|bundle|] == bundle;
      var response := new CTResponse();
      reply, token := ReadResponse(response);
      assert fd.sent[|old(fd.sent)|..] == EncodeFrame(Frame(VERSION, UPLOAD_BUNDLE, bundle));
      DecodeEncodeFrame(Frame(VERSION, UPLOAD_BUNDLE, bundle));
    }

    /** CTClient::write: repeats ::write until all of buf[..length] is out. */
    method Write(buf: seq<byte>, length: nat)
      requires length <= |buf|
      modifies fd
      ensures fd.sent == old(fd.sent) + buf[..length]
      ensures fd.pending == old(fd.pending)
    {
      var offset := 0;
      while offset < length
        invariant offset <= length
        invariant fd.sent == old(fd.sent) + buf[..offset]
        invariant fd.pending == old(fd.pending)
        decreases length - offset
      {
        var n := fd.WriteSome(buf, offset, length - offset);
        assert n > 0;
        assert buf[..offset] + buf[offset..offset + n] == buf[..offset + n];
        offset := offset + n;
      }
    }

    /** CTClient::writeByte: the argument is truncated to one byte. */
    method WriteByte(b: nat)
      modifies fd
      ensures fd.sent == old(fd.sent) + [(b % 256) as byte]
      ensures fd.pending == old(fd.pending)
    {
      var buf := [(b % 256) as byte];
      Write(buf, 1);
    }

    /** CTClient::writeLength: the low lengthOfLength bytes of length, most
        significant first. The shifts of the source are defined only for
        widths of at most 3 bytes. */
    method WriteLength(length: nat, lengthOfLength: nat)
      requires lengthOfLength <= 3
      requires length < Pow256(lengthOfLength)
      modifies fd
      ensures fd.sent == old(fd.sent) + EncodeLength(length, lengthOfLength)
      ensures fd.pending == old(fd.pending)
    {
      ghost var field := EncodeLength(length, lengthOfLength);
      var remaining := lengthOfLength;
      while remaining > 0
        invariant 0 <= remaining <= lengthOfLength
        invariant fd.sent == old(fd.sent) + field[..lengthOfLength - remaining]
        invariant fd.pending == old(fd.pending)
      {
        // (length & (0xff << 8 * (remaining - 1))) >> 8 * (remaining - 1)
        var b := (length / Pow256(remaining - 1)) % 256;
        EncodeLengthAt(length, lengthOfLength, lengthOfLength - remaining);
        WriteByte(b);
        assert field[..lengthOfLength - remaining + 1]
            == field[..lengthOfLength - remaining] + [field[lengthOfLength - remaining]];
        remaining := remaining - 1;
      }
      assert field[..lengthOfLength] == field;
    }

    /** CTClient::read: repeats ::read until buf[..length] is filled. A read
        that returns 0 (the peer closed the stream) fails the assertion of
        the source; here the loop gives up and answers false. */
    method Read(buf: array<byte>, length: nat) returns (ok: bool)
      requires length <= buf.Length
      modifies fd, buf
      ensures fd.sent == old(fd.sent)
      ensures ok <==> length <= |old(fd.pending)|
      ensures ok ==> buf[..length] == old(fd.pending)[..length] && fd.pending == old(fd.pending)[length..]
      ensures !ok ==> fd.pending == []
      ensures buf[length..] == old(buf[length..])
    {
      var offset := 0;
      while offset < length
        invariant offset <= length && offset <= |old(fd.pending)|
        invariant fd.sent == old(fd.sent)
        invariant fd.pending == old(fd.pending)[offset..]
        invariant buf[..offset] == old(fd.pending)[..offset]
        invariant buf[length..] == old(buf[length..])
        decreases length - offset
      {
        var n := fd.ReadSome(buf, offset, length - offset);
        if n <= 0 {
          return false;
        }
        assert buf[..offset + n] == old(fd.pending)[..offset + n] by {
          forall i | 0 <= i < offset + n
            ensures buf[i] == old(fd.pending)[i]
          {
          }
        }
        offset := offset + n;
      }
      return true;
    }

    /** CTClient::readByte. */
    method ReadByte() returns (ok: bool, b: byte)
      modifies fd
      ensures fd.sent == old(fd.sent)
      ensures ok <==> old(fd.pending) != []
      ensures ok ==> b == old(fd.pending)[0] && fd.pending == old(fd.pending)[1..]
      ensures !ok ==> fd.pending == []
    {
      var buf := new byte[1];
      ok := Read(buf, 1);
      b := buf[0];
    }

    /** CTClient::readLength: reads lengthOfLength bytes and accumulates
        length = (length << 8) + byte in a size_t. */
    method ReadLength(lengthOfLength: nat) returns (ok: bool, length: nat)
      modifies fd
      ensures fd.sent == old(fd.sent)
      ensures ok <==> lengthOfLength <= |old(fd.pending)|
      ensures ok ==> length == DecodeLength(old(fd.pending)[..lengthOfLength]) % SIZE_T_RANGE
      ensures ok ==> fd.pending == old(fd.pending)[lengthOfLength..]
      ensures !ok ==> fd.pending == []
    {
      var buf := new byte[lengthOfLength];
      ok := Read(buf, lengthOfLength);
      length := 0;
      if !ok {
        return;
      }
      for n := 0 to lengthOfLength
        modifies {}
        invariant length == DecodeLength(buf[..n]) % SIZE_T_RANGE
      {
        ModAccumulate(DecodeLength(buf[..n]), buf[n] as nat, SIZE_T_RANGE);
        assert buf[..n + 1][..n] == buf[..n];
        length := (length * 256 + buf[n] as nat) % SIZE_T_RANGE;
      }
      assert buf[..lengthOfLength] == old(fd.pending)[..lengthOfLength];
    }

    /** CTClient::readString: the next length bytes of the stream. */
    method ReadString(length: nat) returns (ok: bool, dst: seq<byte>)
      modifies fd
      ensures fd.sent == old(fd.sent)
      ensures ok <==> length <= |old(fd.pending)|
      ensures ok ==> dst == old(fd.pending)[..length] && fd.pending == old(fd.pending)[length..]
      ensures !ok ==> fd.pending == []
    {
      var buf := new byte[length];
      ok := Read(buf, length);
      dst := buf[..length];
    }

    /** CTClient::writeCommand: version, command, then the 3-byte length of
        the payload that the caller writes next. The length is checked only
        after the first two bytes are out, so it is a precondition here. */
    method WriteCommand(cmd: byte, length: nat)
      requires length < Pow256(LENGTH_BYTES)
      modifies fd
      ensures fd.sent == old(fd.sent) + [VERSION, cmd] + EncodeLength(length, LENGTH_BYTES)
      ensures fd.pending == old(fd.pending)
    {
      WriteByte(VERSION as nat);
      WriteByte(cmd as nat);
      WriteLength(length, LENGTH_BYTES);
    }

    /** CTClient::readResponse: version (which must be VERSION), code,
        3-byte length, data; the token is shown only for SUBMITTED, and any
        other code is reported as it is. */
    method ReadResponse(response: CTResponse) returns (reply: Reply, token: Option<string>)
      modifies fd, response
      ensures reply == ExpectReply(old(fd.pending))
      ensures fd.pending == old(fd.pending)[ReplySize(old(fd.pending))..]
      ensures fd.sent == old(fd.sent)
      ensures reply.Received? ==> response.code == reply.code && response.data == reply.data
      ensures reply.WrongVersion? ==> response.code == old(response.code) && response.data == old(response.data)
      ensures token.Some? <==> reply.Received? && reply.code == SUBMITTED
      ensures token.Some? ==> token.value == Hex(reply.data)
    {
      ghost var input := fd.pending;
      token := None;
      var ok, version := ReadByte();
      if !ok {
        return Closed, None;
      }
      if version != VERSION {
        return WrongVersion(version), None;
      }
      var code;
      ok, code := ReadByte();
      if !ok {
        return Closed, None;
      }
      response.code := code;
      var length;
      ok, length := ReadLength(LENGTH_BYTES);
      if !ok {
        return Closed, None;
      }
      assert input[1..][1..][..LENGTH_BYTES] == input[2..HEADER_SIZE];
      ModOfSmall(DecodeLength(input[2..HEADER_SIZE]), SIZE_T_RANGE);
      var data;
      ok, data := ReadString(length);
      if !ok {
        return Closed, None;
      }
      assert input[HEADER_SIZE..][..length] == input[HEADER_SIZE..HEADER_SIZE + length];
      response.data := data;
      reply := Received(response.code, response.data);
      if response.code == SUBMITTED {
        var hex := HexString(response.data);
        token := Some(hex);
      }
    }
  }

  lemma HexOfFour(a: byte, b: byte, c: byte, d: byte)
    ensures Hex([a, b, c, d]) == HexByte(a) + HexByte(b) + HexByte(c) + HexByte(d)
  {
    assert [a][..0] == [];
    assert Hex([a]) == HexByte(a);
    assert [a, b][..1] == [a];
    assert Hex([a, b]) == Hex([a]) + HexByte(b);
    assert [a, b, c][..2] == [a, b];
    assert Hex([a, b, c]) == Hex([a, b]) + HexByte(c);
    assert [a, b, c, d][..3] == [a, b, c];
  }

  /** The frame the client sends for the bundle "hello". */
  lemma HelloFrame(hello: seq<byte>)
    requires hello == [0x68, 0x65, 0x6c, 0x6c, 0x6f]
    ensures EncodeFrame(Frame(VERSION, UPLOAD_BUNDLE, hello)) == [VERSION, UPLOAD_BUNDLE, 0, 0, 5] + hello
  {
    assert EncodeLength(5, LENGTH_BYTES) == [0, 0, 5];
  }

  /** A SUBMITTED reply carrying the four-byte token 01 02 03 04. */
  lemma SubmittedReply(input: seq<byte>)
    requires input == [VERSION, SUBMITTED, 0, 0, 4, 0x01, 0x02, 0x03, 0x04]
    ensures ExpectReply(input) == Received(SUBMITTED, [0x01, 0x02, 0x03, 0x04])
    ensures ReplySize(input) == |input|
    ensures Hex([0x01, 0x02, 0x03, 0x04]) == "01020304"
  {
    assert input[2..HEADER_SIZE] == [0, 0, 4];
    assert DecodeLength([0, 0, 4]) == 4;
    assert input[HEADER_SIZE..HEADER_SIZE + 4] == [0x01, 0x02, 0x03, 0x04];
    HexOfFour(0x01, 0x02, 0x03, 0x04);
  }

  /** One exchange against a peer that accepts the bundle "hello" and
      answers SUBMITTED with a four-byte token. */
  method SubmissionExchange()
  {
    var peer := new Stream([VERSION, SUBMITTED, 0, 0, 4, 0x01, 0x02, 0x03, 0x04]);
    var client := new CTClient(peer);
    var hello: seq<byte> := [0x68, 0x65, 0x6c, 0x6c, 0x6f];
    HelloFrame(hello);
    SubmittedReply(peer.pending);
    var reply, token := client.UploadBundle(hello);
    assert peer.sent == [VERSION, UPLOAD_BUNDLE, 0, 0, 5] + hello;
    assert reply == Received(SUBMITTED, [0x01, 0x02, 0x03, 0x04]);
    assert peer.pending == [];
    assert token == Some("01020304");
  }

  /** A peer that answers with version 1: the client stops after that byte. */
  method VersionMismatchExchange()
  {
    var peer := new Stream([1, SUBMITTED, 0, 0, 0]);
    var client := new CTClient(peer);
    var reply, token := client.UploadBundle([]);
    assert reply == WrongVersion(1) && token == None;
    assert peer.pending == [SUBMITTED, 0, 0, 0];
  }

  /** The worked values of the length field and of the token rendering. */
  method CodecExamples()
  {
    assert EncodeLength(0x010203, 3) == [0x01, 0x02, 0x03];
    assert DecodeLength([0x01, 0x02, 0x03]) == 0x010203;
    HexOfFour(0xde, 0xad, 0xbe, 0xef);
    assert Hex([0xde, 0xad, 0xbe, 0xef]) == "deadbeef";
  }
}
