/**
 The energy meter block of the Huawei inverter: 37 registers from 37101 on, read backwards into a
 packed struct (components/huawei_modbus_converter/huawei_modbus_converter.c:10-31, 170).
 */
module HuaweiMeter {
  import opened Bytes
  import opened ByteOrder

  const METER_ADDRESS: nat := 37101
  const METER_REGISTERS: nat := 37

  /** The widths of the members of `huawei_em_request_t`, in the order of their declaration. */
  const MEMBER_WIDTHS: seq<nat> := [4, 4, 4, 4, 4, 4, 2, 4, 4, 4, 2, 2, 4, 4, 4, 4, 4, 4, 4, 4]

  /** The first register of each member. */
  const MEMBER_REGISTERS: seq<nat> :=
    [37136, 37134, 37132, 37130, 37128, 37126, 37125, 37123, 37121, 37119,
     37118, 37117, 37115, 37113, 37111, 37109, 37107, 37105, 37103, 37101]

  /** The fields of the block, in the order of their registers. */
  ghost predicate MeterFields(fields: seq<Field>) {
    && |fields| == |MEMBER_WIDTHS| && Fits(fields)
    && forall k :: 0 <= k < |MEMBER_WIDTHS| ==> fields[|fields| - 1 - k].width == MEMBER_WIDTHS[k]
  }

  function Sum(widths: seq<nat>): nat {
    if widths == [] then 0 else widths[0] + Sum(widths[1..])
  }

  /** The offset of member `k` in the packed struct. */
  function Offset(k: nat): nat
    requires k <= |MEMBER_WIDTHS|
  {
    Sum(MEMBER_WIDTHS[..k])
  }

  lemma {:induction false} WidthIsSum(fields: seq<Field>, widths: seq<nat>)
    requires |fields| == |widths| && forall i :: 0 <= i < |fields| ==> fields[i].width == widths[i]
    ensures Width(fields) == Sum(widths)
    decreases |fields|
  {
    if fields != [] {
      WidthIsSum(fields[1..], widths[1..]);
    }
  }

  lemma {:induction false} SumLast(widths: seq<nat>, k: nat)
    requires k < |widths|
    ensures Sum(widths[..k + 1]) == Sum(widths[..k]) + widths[k]
  {
    if k > 0 {
      assert widths[..k + 1][1..] == widths[1..][..k] && widths[..k][1..] == widths[1..][..k - 1];
      SumLast(widths[1..], k - 1);
    } else {
      assert widths[..1][1..] == [] && widths[..0] == [];
    }
  }

  /** The members fill the registers that are read, and each lies where its register is. */
  lemma MeterLayout()
    ensures Offset(|MEMBER_WIDTHS|) == 2 * METER_REGISTERS
    ensures forall k :: 0 <= k < |MEMBER_WIDTHS| ==>
      Offset(k) + MEMBER_WIDTHS[k] == 2 * (METER_ADDRESS + METER_REGISTERS - MEMBER_REGISTERS[k])
  {
    OffsetUpTo(|MEMBER_WIDTHS| - 1);
    SumLast(MEMBER_WIDTHS, |MEMBER_WIDTHS| - 1);
  }

  lemma {:induction false} OffsetUpTo(n: nat)
    requires n < |MEMBER_WIDTHS|
    ensures forall k :: 0 <= k <= n ==>
      Offset(k) + MEMBER_WIDTHS[k] == 2 * (METER_ADDRESS + METER_REGISTERS - MEMBER_REGISTERS[k])
  {
    hide Sum;
    if n > 0 {
      OffsetUpTo(n - 1);
      SumLast(MEMBER_WIDTHS, n - 1);
    } else {
      assert MEMBER_WIDTHS[..0] == [];
      NoWidths();
    }
  }

  lemma NoWidths()
    ensures Sum([]) == 0
  {
  }

  lemma MeterMemory(fields: seq<Field>, k: nat)
    requires MeterFields(fields) && k < |MEMBER_WIDTHS|
    ensures |Wire(fields)| == 2 * METER_REGISTERS && Offset(k) + MEMBER_WIDTHS[k] <= 2 * METER_REGISTERS
    ensures var f, off := fields[|fields| - 1 - k], Offset(k);
      var piece := Reverse(Wire(fields))[off..off + f.width];
      && f.width == MEMBER_WIDTHS[k]
      && piece == Reverse(BigEndian(f.value, f.width)) && ReadLittleEndian(piece) == f.value
  {
    hide Reverse, BigEndian, ReadLittleEndian, Wire, Memory, Width, Sum;
    var f := Reverse(fields);
    assert forall i :: 0 <= i < |f| ==> f[i].width == MEMBER_WIDTHS[i];
    ReversedBlock(fields);
    WidthIsSum(f, MEMBER_WIDTHS);
    assert MEMBER_WIDTHS[..|MEMBER_WIDTHS|] == MEMBER_WIDTHS;
    MeterLayout();
    FieldInMemory(f, k);
    WidthIsSum(f[..k], MEMBER_WIDTHS[..k]);
  }

  /**
   After the reversed block read, member `k` of the struct holds the number that the inverter has
   sent, big-endian, in the registers of that member.
   */
  lemma MeterMemberRead(fields: seq<Field>, k: nat)
    requires MeterFields(fields) && k < |MEMBER_WIDTHS|
    ensures |Wire(fields)| == 2 * METER_REGISTERS
    ensures var value, from, w := fields[|fields| - 1 - k].value, 2 * (MEMBER_REGISTERS[k] - METER_ADDRESS), MEMBER_WIDTHS[k];
      && 0 <= from && from + w <= |Wire(fields)| && value < Pow256(w)
      && Wire(fields)[from..from + w] == BigEndian(value, w)
      && Offset(k) + w <= |Wire(fields)|
      && ReadLittleEndian(Reverse(Wire(fields))[Offset(k)..Offset(k) + w]) == value
  {
    hide Reverse, BigEndian, ReadLittleEndian, Wire, Width, Offset;
    MeterMemory(fields, k);
    MeterLayout();
    var wire, off, w := Wire(fields), Offset(k), MEMBER_WIDTHS[k];
    ReversePiece(wire, off, w);
    ReverseTwice(wire[|wire| - off - w..|wire| - off]);
    ReverseTwice(BigEndian(fields[|fields| - 1 - k].value, w));
  }
}
