/**
 The Modbus server in front of the cache (components/modbus_tcp_server/modbus_tcp_server.c:49-129),
 and a client that reads through it.
 */
module ModbusServer {
  import opened Bytes
  import opened ByteOrder
  import opened ModbusFrames
  import opened PollCache

  /** What the server sends back for a message; nothing for one that it does not understand. */
  ghost function Response(client: PollingClient, message: Text): (t: Option<Text>)
    requires client.Valid() && Servable(client, message)
    reads client, client.registers, client.pollData, client.Buffers()
  {
    match Decode(message)
    case Ignored => None
    case Query(_, start, quantity) =>
      match client.RawAnswer(start, quantity)
      case None => Some(ExceptionFrame(message))
      case Some(data) => Some(SuccessFrame(message, data))
  }

  ghost predicate Servable(client: PollingClient, message: Text)
    requires client.Valid()
    reads client, client.registers, client.pollData, client.Buffers()
  {
    var q := Decode(message);
    q.Query? ==> client.Answerable(q.startAddress, q.quantity)
  }

  /** Handles one message of at most 256 bytes. */
  method HandleModbusRequest(client: PollingClient, message: Text) returns (response: array?<Byte>)
    requires client.Valid() && Servable(client, message)
    ensures response == null <==> old(Response(client, message)).None?
    ensures response != null ==> response[..] == old(Response(client, message)).value
  {
    hide Decode, SuccessFrame, ExceptionFrame;
    DecodeUnfold(message);
    if |message| < 12 {
      return null;
    }
    var protocolId := message[2] as int * 256 + message[3] as int;
    var functionCode := message[7] as int;
    if protocolId != 0 || functionCode != READ_HOLDING {
      return null;
    }
    var start := message[8] as int * 256 + message[9] as int;
    var quantity := message[10] as int * 256 + message[11] as int;
    var data, len := client.GetPollDataRaw(start, quantity);
    response := BuildResponse(message, data, len);
  }

  lemma DecodeUnfold(message: Text)
    ensures Decode(message) ==
      if |message| < 12 || WordAt(message, 2) != 0 || message[7] as int != READ_HOLDING then Ignored
      else Query(message[6] as int, WordAt(message, 8), WordAt(message, 10))
  {
  }

  /**
   A client reads 1 to 123 registers through the server: it gets exactly the cached bytes, or, when
   there are none, an error that leaves its own data alone.
   */
  method ReadThrough(client: PollingClient, unitId: nat, start: nat, quantity: nat, data: array<Byte>) returns (ok: bool)
    requires client.Valid() && unitId < 256 && start < 0x10000 && 1 <= quantity <= 123
    requires client.Answerable(start, quantity)
    requires data.Length >= 2 * quantity && data !in client.Buffers()
    modifies data
    ensures ok <==> old(client.RawAnswer(start, quantity)).Some?
    ensures ok ==> data[..] == old(client.RawAnswer(start, quantity)).value + old(data[..])[2 * quantity..]
    ensures !ok ==> data[..] == old(data[..])
  {
    hide Decode, SuccessFrame, ExceptionFrame, ReadRequest, Accepts, Received, Payload;
    ghost var message := ReadRequest(unitId, start, quantity, READ_HOLDING);
    ghost var answer := client.RawAnswer(start, quantity);
    ServerDecodesRequest(unitId, start, quantity, READ_HOLDING);
    ExceptionIsRejected(message, quantity);
    if answer.Some? {
      SuccessIsAccepted(message, answer.value, quantity);
    }
    var bytes := SendRegisterRequest(unitId, start, quantity, READ_HOLDING);
    var response := HandleModbusRequest(client, bytes[..]);
    ok := ReadRaw(true, response[..], quantity, data);
  }
}
