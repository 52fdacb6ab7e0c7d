/** The wire contract between the flight computer and the propulsion board:
    two packed structures of `uint16_t` and `uint8_t` fields in a fixed
    order, with no padding, sent and received as raw memory (so every
    `uint16_t` is little-endian), and the board's packet identifier. */
module Packets {
  import opened Bytes
  import FixedPoint

  /** `PROP_BOARD_ID`: the frame identifier of the command packet. */
  const PropBoardId: Byte := 46

  /** `sizeof(prop_board_downlink_packet)` and `sizeof(prop_board_uplink_packet)`. */
  const DownlinkSize: nat := 16
  const UplinkSize: nat := 28

  /** `prop_board_downlink_packet`: the commands sent to the propulsion board.
      The Q9.6 words carry valve openings in [0, 100] and gimbal angles in
      [-15, 15]; the byte fields are boolean flags. */
  datatype DownlinkPacket = DownlinkPacket(
    mainETH: Word,
    mainN2O: Word,
    solETH: Byte,
    solN2O: Byte,
    gimbalX: Word,
    gimbalY: Word,
    ethMainValvesHoming: Byte,
    n2oMainValvesHoming: Byte,
    thrustControl: Byte,
    ventETH: Byte,
    ventN2O: Byte,
    solN2: Byte)

  /** `prop_board_uplink_packet`: the status reported by the propulsion board.
      The Q9.6 words carry pressures in [0, 50], valve and gimbal positions in
      [0, 100], a temperature in [-70, 40] and a voltage in [0, 26]. */
  datatype UplinkPacket = UplinkPacket(
    pressureTankETH: Word,
    pressureTankN2O: Word,
    pressureInjETH: Word,
    pressureInjN2O: Word,
    pressureLineETH: Word,
    pressureLineN2O: Word,
    chamberPressure: Word,
    n2oMainValvePosition: Word,
    ethMainValvePosition: Word,
    gimbalXPosition: Word,
    gimbalYPosition: Word,
    ethMainValvesHomingDone: Byte,
    n2oMainValvesHomingDone: Byte,
    tempN2O: Word,
    hvVoltage: Word)

  /** The packets as their default member initialisers leave them. */
  const DefaultDownlink := DownlinkPacket(0, 0, 0, 0, 0, 0, 0, 0, 0, 0, 0, 0)
  const DefaultUplink := UplinkPacket(0, 0, 0, 0, 0, 0, 0, 0, 0, 0, 0, 0, 0, 0, 0)

  /** The status buffer as `calloc` leaves it. */
  const ZeroUplinkBuffer: seq<Byte> := seq(UplinkSize, _ => 0)

  /** The width in bytes of each field, in declaration order. */
  const DownlinkWidths: seq<nat> := [2, 2, 1, 1, 2, 2, 1, 1, 1, 1, 1, 1]
  const UplinkWidths: seq<nat> := [2, 2, 2, 2, 2, 2, 2, 2, 2, 2, 2, 1, 1, 2, 2]

  /** The sum of the first `n` widths. */
  function Sum(ws: seq<nat>, n: nat): nat
    requires n <= |ws|
  {
    if n == 0 then 0 else Sum(ws, n - 1) + ws[n - 1]
  }

  /** The first `n` byte strings of `fs`, back to back. */
  function Concat(fs: seq<seq<Byte>>, n: nat): seq<Byte>
    requires n <= |fs|
  {
    if n == 0 then [] else Concat(fs, n - 1) + fs[n - 1]
  }

  /** Byte strings laid back to back, without gaps, take up exactly the sum
      of their widths. */
  lemma {:induction false} ConcatLength(fs: seq<seq<Byte>>, ws: seq<nat>, n: nat)
    requires |fs| == |ws| && n <= |fs|
    requires forall k :: 0 <= k < |fs| ==> |fs[k]| == ws[k]
    ensures |Concat(fs, n)| == Sum(ws, n)
  {
    if n > 0 {
      ConcatLength(fs, ws, n - 1);
    }
  }

  /** The in-memory image of each field of a command packet, in declaration
      order: a `uint16_t` takes two bytes and a `uint8_t` one. */
  function DownlinkFields(p: DownlinkPacket): (fs: seq<seq<Byte>>)
    ensures |fs| == |DownlinkWidths|
    ensures forall k :: 0 <= k < |fs| ==> |fs[k]| == DownlinkWidths[k]
  {
    [WordBytes(p.mainETH), WordBytes(p.mainN2O), [p.solETH], [p.solN2O],
     WordBytes(p.gimbalX), WordBytes(p.gimbalY),
     [p.ethMainValvesHoming], [p.n2oMainValvesHoming], [p.thrustControl],
     [p.ventETH], [p.ventN2O], [p.solN2]]
  }

  /** The in-memory image of each field of a status packet, in declaration
      order. */
  function UplinkFields(p: UplinkPacket): (fs: seq<seq<Byte>>)
    ensures |fs| == |UplinkWidths|
    ensures forall k :: 0 <= k < |fs| ==> |fs[k]| == UplinkWidths[k]
  {
    [WordBytes(p.pressureTankETH), WordBytes(p.pressureTankN2O),
     WordBytes(p.pressureInjETH), WordBytes(p.pressureInjN2O),
     WordBytes(p.pressureLineETH), WordBytes(p.pressureLineN2O),
     WordBytes(p.chamberPressure),
     WordBytes(p.n2oMainValvePosition), WordBytes(p.ethMainValvePosition),
     WordBytes(p.gimbalXPosition), WordBytes(p.gimbalYPosition),
     [p.ethMainValvesHomingDone], [p.n2oMainValvesHomingDone],
     WordBytes(p.tempN2O), WordBytes(p.hvVoltage)]
  }

  /** The downlink packet as it lies in memory. */
  function SerializeDownlink(p: DownlinkPacket): (b: seq<Byte>)
    ensures |b| == DownlinkSize
    ensures WordAt(b, 0) == p.mainETH && WordAt(b, 2) == p.mainN2O
    ensures b[4] == p.solETH && b[5] == p.solN2O
    ensures WordAt(b, 6) == p.gimbalX && WordAt(b, 8) == p.gimbalY
    ensures b[10] == p.ethMainValvesHoming && b[11] == p.n2oMainValvesHoming
    ensures b[12] == p.thrustControl
    ensures b[13] == p.ventETH && b[14] == p.ventN2O && b[15] == p.solN2
  {
    WordBytes(p.mainETH) + WordBytes(p.mainN2O) + [p.solETH] + [p.solN2O]
    + WordBytes(p.gimbalX) + WordBytes(p.gimbalY)
    + [p.ethMainValvesHoming] + [p.n2oMainValvesHoming] + [p.thrustControl]
    + [p.ventETH] + [p.ventN2O] + [p.solN2]
  }

  /** The downlink packet that a 16-byte buffer holds, read as raw memory. */
  function ParseDownlink(b: seq<Byte>): (p: DownlinkPacket)
    requires |b| == DownlinkSize
    ensures SerializeDownlink(p) == b
  {
    var p := DownlinkPacket(
      WordAt(b, 0), WordAt(b, 2), b[4], b[5], WordAt(b, 6), WordAt(b, 8),
      b[10], b[11], b[12], b[13], b[14], b[15]);
    var s := SerializeDownlink(p);
    SameWordSameBytes(s, b, 0);
    SameWordSameBytes(s, b, 2);
    SameWordSameBytes(s, b, 6);
    SameWordSameBytes(s, b, 8);
    assert forall i | 0 <= i < DownlinkSize :: s[i] == b[i];
    p
  }

  /** The uplink packet as it lies in memory. */
  function SerializeUplink(p: UplinkPacket): (b: seq<Byte>)
    ensures |b| == UplinkSize
    ensures WordAt(b, 0) == p.pressureTankETH && WordAt(b, 2) == p.pressureTankN2O
    ensures WordAt(b, 4) == p.pressureInjETH && WordAt(b, 6) == p.pressureInjN2O
    ensures WordAt(b, 8) == p.pressureLineETH && WordAt(b, 10) == p.pressureLineN2O
    ensures WordAt(b, 12) == p.chamberPressure
    ensures WordAt(b, 14) == p.n2oMainValvePosition && WordAt(b, 16) == p.ethMainValvePosition
    ensures WordAt(b, 18) == p.gimbalXPosition && WordAt(b, 20) == p.gimbalYPosition
    ensures b[22] == p.ethMainValvesHomingDone && b[23] == p.n2oMainValvesHomingDone
    ensures WordAt(b, 24) == p.tempN2O && WordAt(b, 26) == p.hvVoltage
  {
    WordBytes(p.pressureTankETH) + WordBytes(p.pressureTankN2O)
    + WordBytes(p.pressureInjETH) + WordBytes(p.pressureInjN2O)
    + WordBytes(p.pressureLineETH) + WordBytes(p.pressureLineN2O)
    + WordBytes(p.chamberPressure)
    + WordBytes(p.n2oMainValvePosition) + WordBytes(p.ethMainValvePosition)
    + WordBytes(p.gimbalXPosition) + WordBytes(p.gimbalYPosition)
    + [p.ethMainValvesHomingDone, p.n2oMainValvesHomingDone]
    + WordBytes(p.tempN2O) + WordBytes(p.hvVoltage)
  }

  /** Two 28-byte buffers that agree on every field of the status layout
      are equal. */
  lemma UplinkBytesDetermined(s: seq<Byte>, b: seq<Byte>)
    requires |s| == UplinkSize && |b| == UplinkSize
    requires WordAt(s, 0) == WordAt(b, 0) && WordAt(s, 2) == WordAt(b, 2)
    requires WordAt(s, 4) == WordAt(b, 4) && WordAt(s, 6) == WordAt(b, 6)
    requires WordAt(s, 8) == WordAt(b, 8) && WordAt(s, 10) == WordAt(b, 10)
    requires WordAt(s, 12) == WordAt(b, 12) && WordAt(s, 14) == WordAt(b, 14)
    requires WordAt(s, 16) == WordAt(b, 16) && WordAt(s, 18) == WordAt(b, 18)
    requires WordAt(s, 20) == WordAt(b, 20)
    requires s[22] == b[22] && s[23] == b[23]
    requires WordAt(s, 24) == WordAt(b, 24) && WordAt(s, 26) == WordAt(b, 26)
    ensures s == b
  {
    SameWordSameBytes(s, b, 0);
    SameWordSameBytes(s, b, 2);
    SameWordSameBytes(s, b, 4);
    SameWordSameBytes(s, b, 6);
    SameWordSameBytes(s, b, 8);
    SameWordSameBytes(s, b, 10);
    SameWordSameBytes(s, b, 12);
    SameWordSameBytes(s, b, 14);
    SameWordSameBytes(s, b, 16);
    SameWordSameBytes(s, b, 18);
    SameWordSameBytes(s, b, 20);
    SameWordSameBytes(s, b, 24);
    SameWordSameBytes(s, b, 26);
    assert forall i | 0 <= i < UplinkSize :: s[i] == b[i];
  }

  /** The uplink packet that a 28-byte buffer holds, read as raw memory: the
      receiver copies the bytes without checking any field, so every buffer
      of that size is a packet. */
  function ParseUplink(b: seq<Byte>): (p: UplinkPacket)
    requires |b| == UplinkSize
    ensures SerializeUplink(p) == b
  {
    var p := UplinkPacket(
      WordAt(b, 0), WordAt(b, 2), WordAt(b, 4), WordAt(b, 6), WordAt(b, 8),
      WordAt(b, 10), WordAt(b, 12), WordAt(b, 14), WordAt(b, 16), WordAt(b, 18),
      WordAt(b, 20), b[22], b[23], WordAt(b, 24), WordAt(b, 26));
    UplinkBytesDetermined(SerializeUplink(p), b);
    p
  }

  /** A packet survives being written to memory and read back. */
  lemma DownlinkRoundTrip(p: DownlinkPacket)
    ensures ParseDownlink(SerializeDownlink(p)) == p
  {
  }

  lemma UplinkRoundTrip(p: UplinkPacket)
    ensures ParseUplink(SerializeUplink(p)) == p
  {
  }

  /** A default-constructed packet is all zero bytes. */
  lemma DefaultsAreZero()
    ensures SerializeDownlink(DefaultDownlink) == seq(DownlinkSize, _ => 0)
    ensures SerializeUplink(DefaultUplink) == ZeroUplinkBuffer
  {
    assert WordBytes(0) == [0, 0];
  }

  /** The zero-filled status buffer holds the default packet. */
  lemma ZeroBufferIsDefault()
    ensures ParseUplink(ZeroUplinkBuffer) == DefaultUplink
  {
  }

  /** A command packet is its fields' images laid back to back. */
  lemma DownlinkIsFields(p: DownlinkPacket)
    ensures SerializeDownlink(p) == Concat(DownlinkFields(p), |DownlinkWidths|)
  {
    var fs := DownlinkFields(p);
    assert Concat(fs, 1) == [] + fs[0] == fs[0];
    assert Concat(fs, 2) == fs[0] + fs[1];
    assert Concat(fs, 3) == fs[0] + fs[1] + fs[2];
    assert Concat(fs, 4) == fs[0] + fs[1] + fs[2] + fs[3];
    assert Concat(fs, 5) == fs[0] + fs[1] + fs[2] + fs[3] + fs[4];
    assert Concat(fs, 6) == Concat(fs, 5) + fs[5];
    assert Concat(fs, 7) == Concat(fs, 6) + fs[6];
    assert Concat(fs, 8) == Concat(fs, 7) + fs[7];
    assert Concat(fs, 9) == Concat(fs, 8) + fs[8];
    assert Concat(fs, 10) == Concat(fs, 9) + fs[9];
    assert Concat(fs, 11) == Concat(fs, 10) + fs[10];
  }

  /** A status packet is its fields' images laid back to back. */
  lemma UplinkIsFields(q: UplinkPacket)
    ensures SerializeUplink(q) == Concat(UplinkFields(q), |UplinkWidths|)
  {
    var fs := UplinkFields(q);
    assert Concat(fs, 1) == [] + fs[0] == fs[0];
    assert Concat(fs, 2) == fs[0] + fs[1];
    assert Concat(fs, 3) == fs[0] + fs[1] + fs[2];
    assert Concat(fs, 4) == Concat(fs, 3) + fs[3];
    assert Concat(fs, 5) == Concat(fs, 4) + fs[4];
    assert Concat(fs, 6) == Concat(fs, 5) + fs[5];
    assert Concat(fs, 7) == Concat(fs, 6) + fs[6];
    assert Concat(fs, 8) == Concat(fs, 7) + fs[7];
    assert Concat(fs, 9) == Concat(fs, 8) + fs[8];
    assert Concat(fs, 10) == Concat(fs, 9) + fs[9];
    assert Concat(fs, 11) == Concat(fs, 10) + fs[10];
    assert Concat(fs, 12) == Concat(fs, 11) + fs[11];
    assert Concat(fs, 13) == Concat(fs, 11) + [q.ethMainValvesHomingDone] + [q.n2oMainValvesHomingDone]
                          == Concat(fs, 11) + [q.ethMainValvesHomingDone, q.n2oMainValvesHomingDone];
    assert Concat(fs, 14) == Concat(fs, 13) + fs[13];
  }

  /** Each packet is its fields' images laid back to back in declaration
      order, so its size is the sum of the field widths: there is no padding
      between or after the fields. */
  lemma NoPadding(p: DownlinkPacket, q: UplinkPacket)
    ensures SerializeDownlink(p) == Concat(DownlinkFields(p), |DownlinkWidths|)
    ensures SerializeUplink(q) == Concat(UplinkFields(q), |UplinkWidths|)
    ensures |SerializeDownlink(p)| == Sum(DownlinkWidths, |DownlinkWidths|) == DownlinkSize
    ensures |SerializeUplink(q)| == Sum(UplinkWidths, |UplinkWidths|) == UplinkSize
  {
    DownlinkIsFields(p);
    UplinkIsFields(q);
    ConcatLength(DownlinkFields(p), DownlinkWidths, |DownlinkWidths|);
    ConcatLength(UplinkFields(q), UplinkWidths, |UplinkWidths|);
  }

  /** The physical range documented for a Q9.6 field. */
  datatype FieldRange = FieldRange(field: string, lo: real, hi: real)

  const DownlinkRanges: seq<FieldRange> := [
    FieldRange("main_ETH", 0.0, 100.0),
    FieldRange("main_N2O", 0.0, 100.0),
    FieldRange("gimbal_x", -15.0, 15.0),
    FieldRange("gimbal_y", -15.0, 15.0)]

  const UplinkRanges: seq<FieldRange> := [
    FieldRange("pressure_tank_ETH", 0.0, 50.0),
    FieldRange("pressure_tank_N2O", 0.0, 50.0),
    FieldRange("pressure_inj_ETH", 0.0, 50.0),
    FieldRange("pressure_inj_N2O", 0.0, 50.0),
    FieldRange("pressure_line_ETH", 0.0, 50.0),
    FieldRange("pressure_line_N2O", 0.0, 50.0),
    FieldRange("chamber_pressure", 0.0, 50.0),
    FieldRange("N2O_main_valve_position", 0.0, 100.0),
    FieldRange("ETH_main_valve_position", 0.0, 100.0),
    FieldRange("gimbal_x_position", 0.0, 100.0),
    FieldRange("gimbal_y_position", 0.0, 100.0),
    FieldRange("temp_N2O", -70.0, 40.0),
    FieldRange("hv_voltage", 0.0, 26.0)]

  /** Every documented range lies inside Q9.6, so a value in range is encoded
      without saturation and decodes to within 1/128 of itself. */
  lemma RangesFitFixedPoint(r: FieldRange, v: real)
    requires r in DownlinkRanges + UplinkRanges
    requires r.lo <= v <= r.hi
    ensures FixedPoint.CastDefined(v)
    ensures FixedPoint.MinScaled <= FixedPoint.Round(v * FixedPoint.ScaleFactor) <= FixedPoint.MaxScaled
    ensures -1.0 / 128.0 <= FixedPoint.Decode(FixedPoint.Encode(v)) - v <= 1.0 / 128.0
  {
    assert FixedPoint.MinValue <= r.lo && r.hi <= FixedPoint.MaxValue;
    FixedPoint.QuantizationError(v);
  }
}
