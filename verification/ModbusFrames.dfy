/**
 Modbus TCP frames: what the client sends and accepts
 (components/modbus_tcp_client/modbus_tcp_client.c:43-108, 163-226), and what the server decodes
 and answers (components/modbus_tcp_server/modbus_tcp_server.c:73-128).
 */
module ModbusFrames {
  import opened Bytes
  import opened ByteOrder

  const RECV_BUFFER_SIZE: nat := 256
  const MIN_RESPONSE: nat := 9
  const READ_HOLDING: nat := 3

  /** A 16-bit number, high byte first. */
  function Word(n: nat): (t: Text)
    requires n < 0x10000
    ensures |t| == 2
  {
    [(n / 256) as char, (n % 256) as char]
  }

  function WordAt(t: Text, i: nat): (n: nat)
    requires i + 1 < |t|
    ensures n < 0x10000
  {
    t[i] as int * 256 + t[i + 1] as int
  }

  lemma WordAtWord(t: Text, i: nat, n: nat)
    requires n < 0x10000 && i + 2 <= |t| && t[i..i + 2] == Word(n)
    ensures WordAt(t, i) == n
  {
    assert t[i] == t[i..i + 2][0] && t[i + 1] == t[i..i + 2][1];
  }

  // ----- the client's request

  datatype Request = Request(
    transactionId: nat, messageSize: nat, unitId: nat, functionCode: nat, startReg: nat, numRegs: nat)
  {
    ghost predicate Valid() {
      && transactionId < 0x10000 && messageSize < 0x10000 && unitId < 256 && functionCode < 256
      && startReg < 0x10000 && numRegs < 0x10000
    }
  }

  /** A request as section 4.1 of the MODBUS Messaging Implementation Guide and section 6.3 of the protocol lay it out. */
  ghost function RequestFrame(r: Request): (t: Text)
    requires r.Valid()
    ensures |t| == 12
  {
    Word(r.transactionId) + Word(0) + Word(r.messageSize) + [r.unitId as char, r.functionCode as char]
      + Word(r.startReg) + Word(r.numRegs)
  }

  method BuildModbusRequest(buf: array<Byte>, r: Request)
    requires r.Valid() && buf.Length == 12
    modifies buf
    ensures buf[..] == RequestFrame(r)
  {
    buf[0] := (r.transactionId / 256) as char;
    buf[1] := (r.transactionId % 256) as char;
    buf[2] := NUL;
    buf[3] := NUL;
    buf[4] := (r.messageSize / 256) as char;
    buf[5] := (r.messageSize % 256) as char;
    buf[6] := r.unitId as char;
    buf[7] := r.functionCode as char;
    buf[8] := (r.startReg / 256) as char;
    buf[9] := (r.startReg % 256) as char;
    buf[10] := (r.numRegs / 256) as char;
    buf[11] := (r.numRegs % 256) as char;
  }

  /** The request for `numRegs` registers from `startReg` on. */
  ghost function ReadRequest(unitId: nat, startReg: nat, numRegs: nat, functionCode: nat): (t: Text)
    requires unitId < 256 && startReg < 0x10000 && numRegs < 256 && functionCode < 256
    ensures |t| == 12
  {
    RequestFrame(Request(0, 6, unitId, functionCode, startReg, numRegs))
  }

  method SendRegisterRequest(unitId: nat, startReg: nat, numRegs: nat, functionCode: nat) returns (bytes: array<Byte>)
    requires unitId < 256 && startReg < 0x10000 && numRegs < 256 && functionCode < 256
    ensures fresh(bytes) && bytes[..] == ReadRequest(unitId, startReg, numRegs, functionCode)
  {
    bytes := new Byte[12];
    BuildModbusRequest(bytes, Request(0, bytes.Length - 6, unitId, functionCode, startReg, numRegs));
  }

  // ----- the server's answer

  datatype Query = Ignored | Query(unitId: nat, startAddress: nat, quantity: nat)

  /** What the server takes a received message for. */
  function Decode(message: Text): Query {
    if |message| < 12 || WordAt(message, 2) != 0 || message[7] as int != READ_HOLDING then Ignored
    else Query(message[6] as int, WordAt(message, 8), WordAt(message, 10))
  }

  /** The answer that carries `data`. */
  ghost function SuccessFrame(message: Text, data: Text): (t: Text)
    requires |message| >= 12
    ensures |t| == 9 + |data|
  {
    SuccessHeader(message, |data|) + data
  }

  ghost function SuccessHeader(message: Text, len: nat): (t: Text)
    requires |message| >= 12
    ensures |t| == 9
  {
    message[..2] + Word(0) + Word((3 + len) % 0x10000) + [message[6], message[7], (len % 256) as char]
  }

  /** The answer when there is no data: the function code with its top bit set, and exception code 2. */
  ghost function ExceptionFrame(message: Text): (t: Text)
    requires |message| >= 12
    ensures |t| == 9
  {
    message[..2] + Word(0) + Word(3) + [message[6], WithTopBit(message[7]), 2 as char]
  }

  /** `b | 0x80` */
  function WithTopBit(b: Byte): (r: Byte)
    ensures r as int >= 0x80 && r as int % 0x80 == b as int % 0x80
  {
    if b as int < 0x80 then (b as int + 0x80) as char else b
  }

  /** The response to a query: `data` is NULL when the cache has none, else it has `len` bytes. */
  method BuildResponse(message: Text, data: array?<Byte>, len: nat) returns (response: array<Byte>)
    requires |message| >= 12
    requires data != null ==> data.Length == len < 0x10000
    ensures fresh(response)
    ensures response[..] == if data == null then ExceptionFrame(message) else SuccessFrame(message, data[..])
  {
    if data != null {
      response := new Byte[9 + len];
      FillHeader(response, message, len);
      CopyData(response, data, len);
    } else {
      response := ErrorResponse(message);
    }
  }

  lemma HeaderBytes(message: Text, len: nat)
    requires |message| >= 12 && len < 0x10000
    ensures SuccessHeader(message, len) ==
      [message[0], message[1], NUL, NUL, ((3 + len) / 256 % 256) as char, ((3 + len) % 256) as char,
       message[6], message[7], (len % 256) as char]
  {
    assert (3 + len) % 0x10000 / 256 == (3 + len) / 256 % 256;
    assert (3 + len) % 0x10000 % 256 == (3 + len) % 256;
  }

  method FillHeader(response: array<Byte>, message: Text, len: nat)
    requires |message| >= 12 && response.Length == 9 + len && len < 0x10000
    modifies response
    ensures response[..9] == SuccessHeader(message, len)
  {
    hide SuccessHeader;
    HeaderBytes(message, len);
    response[0] := message[0];
    response[1] := message[1];
    response[2] := NUL;
    response[3] := NUL;
    response[4] := ((3 + len) / 256 % 256) as char;
    response[5] := ((3 + len) % 256) as char;
    response[6] := message[6];
    response[7] := message[7];
    response[8] := (len % 256) as char;
  }

  method CopyData(response: array<Byte>, data: array<Byte>, len: nat)
    requires response.Length == 9 + len && data.Length == len && response != data
    modifies response
    ensures response[..] == old(response[..9]) + data[..]
  {
    for i := 0 to len
      invariant forall k :: 0 <= k < 9 ==> response[k] == old(response[k])
      invariant forall k :: 0 <= k < i ==> response[9 + k] == data[k]
    {
      response[9 + i] := data[i];
    }
    assert response[..9] == old(response[..9]) && response[9..] == data[..];
  }

  method ErrorResponse(message: Text) returns (response: array<Byte>)
    requires |message| >= 12
    ensures fresh(response) && response[..] == ExceptionFrame(message)
  {
    response := new Byte[9];
    response[0] := message[0];
    response[1] := message[1];
    response[2] := NUL;
    response[3] := NUL;
    response[4] := NUL;
    response[5] := 3 as char;
    response[6] := message[6];
    response[7] := WithTopBit(message[7]);
    response[8] := 2 as char;
  }

  // ----- what the client accepts

  /** What one call of `recv` puts into the client's buffer of 256 bytes. */
  function Received(reply: Text): (t: Text)
    ensures |t| <= RECV_BUFFER_SIZE && t <= reply
  {
    if |reply| <= RECV_BUFFER_SIZE then reply else reply[..RECV_BUFFER_SIZE]
  }

  predicate Accepts(reply: Text, numRegs: nat) {
    && |reply| >= MIN_RESPONSE
    && (reply[7] as int) < 0x80
    && |reply| == MIN_RESPONSE + 2 * numRegs
  }

  /** The register bytes of an accepted reply. */
  function Payload(reply: Text, numRegs: nat): (t: Text)
    requires |reply| >= 9 + 2 * numRegs
    ensures |t| == 2 * numRegs
  {
    reply[9..9 + 2 * numRegs]
  }

  /**
   Receives a reply into `recBuf` and checks it.  `sent` says whether the request got out; a
   receive that fails is treated as the source treats it, like a reply that is too short.
   */
  method GetRegisterValues(sent: bool, reply: Text, numRegs: nat, recBuf: array<Byte>) returns (ok: bool)
    requires recBuf.Length == RECV_BUFFER_SIZE && numRegs < 256
    modifies recBuf
    ensures ok <==> sent && Accepts(Received(reply), numRegs)
    ensures ok ==> recBuf[..|Received(reply)|] == Received(reply)
  {
    if !sent {
      return false;
    }
    var length := |Received(reply)|;
    for i := 0 to length
      invariant forall k :: 0 <= k < i ==> recBuf[k] == Received(reply)[k]
    {
      recBuf[i] := Received(reply)[i];
    }
    assert length > 7 ==> recBuf[7] == recBuf[..length][7] == Received(reply)[7];
    if length < MIN_RESPONSE {
      return false;
    } else if recBuf[7] as int >= 0x80 {
      return false;
    } else if length != MIN_RESPONSE + 2 * numRegs {
      return false;
    }
    return true;
  }

  /** Reads registers as they come; `data` is left alone when the reply is not accepted. */
  method ReadRaw(sent: bool, reply: Text, numRegs: nat, data: array<Byte>) returns (ok: bool)
    requires numRegs < 256 && data.Length >= 2 * numRegs
    modifies data
    ensures ok <==> sent && Accepts(Received(reply), numRegs)
    ensures ok ==> data[..] == Payload(reply, numRegs) + old(data[..])[2 * numRegs..]
    ensures !ok ==> data[..] == old(data[..])
  {
    hide Accepts, Received;
    var recBuf := new Byte[RECV_BUFFER_SIZE](_ => NUL);
    ok := GetRegisterValues(sent, reply, numRegs, recBuf);
    if !ok {
      return;
    }
    ReceivedPayload(reply, numRegs, recBuf[..]);
    for i := 0 to numRegs
      invariant forall k :: 0 <= k < 2 * i ==> data[k] == recBuf[9 + k]
      invariant forall k :: 2 * i <= k < data.Length ==> data[k] == old(data[k])
      modifies data
    {
      data[2 * i] := recBuf[MIN_RESPONSE + 2 * i];
      data[2 * i + 1] := recBuf[MIN_RESPONSE + 2 * i + 1];
    }
    Joined(data[..], recBuf[9..9 + 2 * numRegs], old(data[..]));
  }

  lemma Joined(s: Text, front: Text, was: Text)
    requires |front| <= |s| == |was|
    requires forall k :: 0 <= k < |front| ==> s[k] == front[k]
    requires forall k :: |front| <= k < |s| ==> s[k] == was[k]
    ensures s == front + was[|front|..]
  {
  }

  lemma ReceivedPayload(reply: Text, numRegs: nat, buffer: Text)
    requires |buffer| == RECV_BUFFER_SIZE && Accepts(Received(reply), numRegs)
    requires buffer[..|Received(reply)|] == Received(reply)
    ensures Received(reply) == reply && 2 * numRegs + 9 == |reply| <= 256
    ensures buffer[9..9 + 2 * numRegs] == Payload(reply, numRegs)
  {
    assert forall i :: 0 <= i < |reply| ==> buffer[i] == buffer[..|reply|][i];
  }

  /** Reads registers in reverse byte order, or with the two bytes of each register exchanged. */
  method Read(sent: bool, reply: Text, numRegs: nat, bigEndian: bool, data: array<Byte>) returns (ok: bool)
    requires numRegs < 256 && data.Length >= 2 * numRegs
    modifies data
    ensures ok <==> sent && Accepts(Received(reply), numRegs)
    ensures ok ==>
      && data[2 * numRegs..] == old(data[2 * numRegs..])
      && data[..2 * numRegs] ==
         if bigEndian then Reverse(Payload(reply, numRegs)) else SwapPairs(Payload(reply, numRegs))
    ensures !ok ==> data[..] == old(data[..])
  {
    hide Reverse, SwapPairs, Accepts, Received;
    var recBuf := new Byte[RECV_BUFFER_SIZE](_ => NUL);
    ok := GetRegisterValues(sent, reply, numRegs, recBuf);
    if !ok {
      return;
    }
    ReceivedPayload(reply, numRegs, recBuf[..]);
    if bigEndian {
      MemcpyReverse(data, recBuf, MIN_RESPONSE, 2 * numRegs);
    } else {
      CopySwapped(recBuf, MIN_RESPONSE, numRegs, data);
    }
  }

  /** Copies registers with their two bytes exchanged. */
  method CopySwapped(source: array<Byte>, from: nat, numRegs: nat, data: array<Byte>)
    requires from + 2 * numRegs <= source.Length && 2 * numRegs <= data.Length && source != data
    modifies data
    ensures data[..2 * numRegs] == SwapPairs(source[from..from + 2 * numRegs])
    ensures data[2 * numRegs..] == old(data[2 * numRegs..])
  {
    for i := 0 to numRegs
      invariant forall k :: 0 <= k < i ==> data[2 * k] == source[from + 2 * k + 1] && data[2 * k + 1] == source[from + 2 * k]
      invariant forall k :: 2 * numRegs <= k < data.Length ==> data[k] == old(data[k])
    {
      data[2 * i] := source[from + 2 * i + 1];
      data[2 * i + 1] := source[from + 2 * i];
    }
    ghost var t := SwapPairs(source[from..from + 2 * numRegs]);
    forall k | 0 <= k < 2 * numRegs ensures data[k] == t[k] {
      assert k == 2 * (k / 2) + k % 2;
    }
  }

  // ----- client and server agree

  /**
   The bytes of a request: transaction, zero, the number of bytes that follow the length field, unit,
   function, first register, number of registers; numbers of two bytes with the high byte first.
   */
  lemma RequestLayout(r: Request)
    requires r.Valid()
    ensures var t := RequestFrame(r);
      && 256 * (t[0] as int) + t[1] as int == r.transactionId && t[2] as int == 0 && t[3] as int == 0
      && 256 * (t[4] as int) + t[5] as int == r.messageSize
      && t[6] as int == r.unitId && t[7] as int == r.functionCode
      && 256 * (t[8] as int) + t[9] as int == r.startReg && 256 * (t[10] as int) + t[11] as int == r.numRegs
  {
  }

  /** The client's own requests: transaction 0, and a length field that counts what is behind it. */
  lemma ReadRequestLayout(unitId: nat, startReg: nat, numRegs: nat, functionCode: nat)
    requires unitId < 256 && startReg < 0x10000 && numRegs < 256 && functionCode < 256
    ensures var t := ReadRequest(unitId, startReg, numRegs, functionCode);
      && t[..4] == [NUL, NUL, NUL, NUL] && 256 * (t[4] as int) + t[5] as int == |t| - 6
      && t[6] as int == unitId && t[7] as int == functionCode
      && 256 * (t[8] as int) + t[9] as int == startReg && t[10] == NUL && t[11] as int == numRegs
  {
    var r := Request(0, 6, unitId, functionCode, startReg, numRegs);
    RequestLayout(r);
    assert Word(0) == [NUL, NUL];
  }

  /** Which messages the server answers, and what it takes them for, byte by byte. */
  lemma DecodeLayout(m: Text)
    ensures Decode(m).Ignored? <==> |m| < 12 || m[2] != NUL || m[3] != NUL || m[7] as int != 3
    ensures Decode(m).Query? ==>
      Decode(m) == Query(m[6] as int, 256 * (m[8] as int) + m[9] as int, 256 * (m[10] as int) + m[11] as int)
  {
  }

  /** Which replies the client takes, and what it takes from them, byte by byte. */
  lemma AcceptedReplies(reply: Text, numRegs: nat)
    requires numRegs < 256
    ensures Accepts(Received(reply), numRegs) <==>
      |reply| == 9 + 2 * numRegs && |reply| <= 256 && (reply[7] as int) < 128
    ensures Accepts(Received(reply), numRegs) ==>
      forall i :: 0 <= i < 2 * numRegs ==> Payload(reply, numRegs)[i] == reply[9 + i]
  {
  }

  /** The server sees the request that the client meant, if and only if it asks for holding registers. */
  lemma ServerDecodesRequest(unitId: nat, startReg: nat, numRegs: nat, functionCode: nat)
    requires unitId < 256 && startReg < 0x10000 && numRegs < 256 && functionCode < 256
    ensures Decode(ReadRequest(unitId, startReg, numRegs, functionCode)) ==
      if functionCode == READ_HOLDING then Query(unitId, startReg, numRegs) else Ignored
  {
    var t := ReadRequest(unitId, startReg, numRegs, functionCode);
    assert t[2..4] == Word(0) && t[8..10] == Word(startReg) && t[10..12] == Word(numRegs);
    WordAtWord(t, 2, 0);
    WordAtWord(t, 8, startReg);
    WordAtWord(t, 10, numRegs);
  }

  /**
   The client accepts a success frame with the bytes of all registers exactly when there are at
   most 123 of them, as its buffer has no room for more; it then finds the bytes that were sent.
   */
  lemma SuccessIsAccepted(message: Text, data: Text, numRegs: nat)
    requires Decode(message).Query? && |data| == 2 * numRegs
    ensures Accepts(Received(SuccessFrame(message, data)), numRegs) <==> numRegs <= 123
    ensures Payload(SuccessFrame(message, data), numRegs) == data
  {
    var f := SuccessFrame(message, data);
    assert f[7] == message[7];
  }

  /** The client never takes an exception for data, however many registers it has asked for. */
  lemma ExceptionIsRejected(message: Text, numRegs: nat)
    requires |message| >= 12
    ensures !Accepts(Received(ExceptionFrame(message)), numRegs)
  {
    assert ExceptionFrame(message)[7] == WithTopBit(message[7]);
  }

  /**
   The header of an answer repeats transaction and unit, and counts the bytes behind it; the byte
   count is that of the registers as long as it fits into a byte.
   */
  lemma AnswerLayout(message: Text, data: Text)
    requires |message| >= 12 && |data| < 0x10000 - 3
    ensures var f := SuccessFrame(message, data);
      && f[..2] == message[..2] && WordAt(f, 2) == 0 && WordAt(f, 4) == |f| - 6
      && f[6] == message[6] && f[7] == message[7] && f[9..] == data
      && f[8] as int == |data| % 256
    ensures var e := ExceptionFrame(message);
      && e[..2] == message[..2] && WordAt(e, 2) == 0 && WordAt(e, 4) == |e| - 6
      && e[6] == message[6] && e[8] as int == 2 && e[7] as int % 128 == message[7] as int % 128 && e[7] as int >= 128
  {
    var f, e := SuccessFrame(message, data), ExceptionFrame(message);
    assert f[2..4] == Word(0) && f[4..6] == Word(3 + |data|);
    WordAtWord(f, 2, 0);
    WordAtWord(f, 4, 3 + |data|);
    assert e[2..4] == Word(0) && e[4..6] == Word(3);
    WordAtWord(e, 2, 0);
    WordAtWord(e, 4, 3);
  }
}
