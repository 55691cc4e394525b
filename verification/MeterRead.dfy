/**
 The read that fills the energy meter struct, through the cache
 (components/huawei_modbus_converter/huawei_modbus_converter.c:170,
 components/modbus_tcp_poll/modbus_tcp_poll.c:130-160).
 */
module MeterRead {
  import opened Bytes
  import opened ByteOrder
  import opened HuaweiMeter
  import opened PollCache

  /** The number of the block in which the meter is, and where its registers begin in that block. */
  const METER_BLOCK: nat := 4
  const METER_OFFSET: nat := 2

  /**
   When the last good response for the block holds the fields of the meter, every member of the struct
   holds its number after the read; the numbers are those of the registers that belong to the member.
   */
  method ReadMeter(client: PollingClient, em: array<Byte>, ghost response: Text, ghost fields: seq<Field>)
    requires HuaweiClient(client) && MeterFields(fields)
    requires Cached(client.history[METER_BLOCK], 76) == Some(response)
    requires |response| == 76 && response[METER_OFFSET..] == Wire(fields)
    requires em.Length == 74 && em !in client.Buffers()
    modifies em
    ensures forall k :: 0 <= k < |MEMBER_WIDTHS| ==>
      && Offset(k) + MEMBER_WIDTHS[k] <= 74
      && ReadLittleEndian(em[Offset(k)..Offset(k) + MEMBER_WIDTHS[k]]) == fields[|fields| - 1 - k].value
  {
    hide Cached, Reverse, Wire, ReadLittleEndian, Offset, PollingClient.Answer;
    HuaweiAnswers(client, METER_BLOCK, METER_ADDRESS, METER_REGISTERS, response);
    assert response[2..2 + 2 * METER_REGISTERS] == response[2..];
    client.GetPollData(METER_ADDRESS, METER_REGISTERS, true, em);
    assert em[..74] == em[..];
    forall k | 0 <= k < |MEMBER_WIDTHS|
      ensures Offset(k) + MEMBER_WIDTHS[k] <= 74
      ensures ReadLittleEndian(em[Offset(k)..Offset(k) + MEMBER_WIDTHS[k]]) == fields[|fields| - 1 - k].value
    {
      MeterMemberRead(fields, k);
      assert em[..][Offset(k)..Offset(k) + MEMBER_WIDTHS[k]] == em[Offset(k)..Offset(k) + MEMBER_WIDTHS[k]];
    }
  }
}
