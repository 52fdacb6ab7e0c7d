/** The duplex packet pump between the flight computer and the propulsion
    board. Transmit fills the reused command packet from the dictionary and
    writes its encoded frame when the serial port has room for the whole
    frame. Receive drains the serial port into the frame decoder when enough
    bytes for a status frame are waiting. Every completed frame of status
    size replaces the status buffer. The buffer is then merged into the
    dictionary. */
module PropBoard {
  import opened Bytes
  import opened FixedPoint
  import opened Packets
  import opened Capsule
  import opened Dictionary

  /** A `bool` converted to a byte: 1 for true, 0 for false. */
  function BoolByte(b: bool): (x: Byte)
    ensures x <= 1 && (x == 1 <==> b)
  {
    if b then 1 else 0
  }

  /** A byte converted to a `bool`: true unless it is 0. */
  function ByteBool(x: Byte): (b: bool)
    ensures x <= 1 ==> BoolByte(b) == x
    ensures BoolByte(b) == 0 <==> x == 0
  {
    x != 0
  }

  /** A float the encoder accepts. For a number, the conversion to a 32-bit
      integer must be defined. NaN is accepted: see EncodeFloat. */
  predicate Encodable(f: Float)
  {
    f.Num? ==> CastDefined(f.value)
  }

  /** `float_to_fixed16` on a dictionary float. C leaves converting NaN to an
      integer undefined. The model gives it the value 0, which is what the
      target's float-to-integer instruction produces. */
  function EncodeFloat(f: Float): (w: Word)
    requires Encodable(f)
    ensures f.NaN? ==> w == 0
    ensures f.Num? ==> Signed(w) == Clamp(Round(f.value * ScaleFactor))
  {
    match f
    case NaN => 0
    case Num(v) => Encode(v)
  }

  /** The dictionary fields that transmit reads. */
  datatype Commands = Commands(
    gimbalX: Float,
    gimbalY: Float,
    mainETH: Float,
    mainN2O: Float,
    solETH: bool,
    solN2O: bool,
    ventETH: bool,
    ventN2O: bool,
    solN2: bool,
    ethMainValvesHoming: bool,
    n2oMainValvesHoming: bool)

  /** The dictionary fields that transmit reads, and nothing else. */
  function CommandsOf(d: ObjectDictionary): (c: Commands)
    reads d
    ensures c.gimbalX == d.gimbalX && c.gimbalY == d.gimbalY
    ensures c.mainETH == d.mainETH && c.mainN2O == d.mainN2O
    ensures c.solETH == d.solETH && c.solN2O == d.solN2O && c.solN2 == d.solN2
    ensures c.ventETH == d.ventETH && c.ventN2O == d.ventN2O
    ensures c.ethMainValvesHoming == d.ethMainValvesHoming
    ensures c.n2oMainValvesHoming == d.n2oMainValvesHoming
  {
    Commands(d.gimbalX, d.gimbalY, d.mainETH, d.mainN2O,
             d.solETH, d.solN2O, d.ventETH, d.ventN2O, d.solN2,
             d.ethMainValvesHoming, d.n2oMainValvesHoming)
  }

  predicate CommandsEncodable(c: Commands)
  {
    Encodable(c.gimbalX) && Encodable(c.gimbalY) && Encodable(c.mainETH) && Encodable(c.mainN2O)
  }

  /** The command packet after transmit has filled `prev` from the dictionary:
      every Q9.6 field holds the encoding of its dictionary value, every flag
      byte is 0 or 1 and agrees with its dictionary flag, and the one field
      transmit does not assign, `thrust_control`, keeps its previous value. */
  function FillDownlink(prev: DownlinkPacket, c: Commands): (p: DownlinkPacket)
    requires CommandsEncodable(c)
    ensures p.gimbalX == EncodeFloat(c.gimbalX) && p.gimbalY == EncodeFloat(c.gimbalY)
    ensures p.mainETH == EncodeFloat(c.mainETH) && p.mainN2O == EncodeFloat(c.mainN2O)
    ensures p.solETH <= 1 && (ByteBool(p.solETH) <==> c.solETH)
    ensures p.solN2O <= 1 && (ByteBool(p.solN2O) <==> c.solN2O)
    ensures p.ventETH <= 1 && (ByteBool(p.ventETH) <==> c.ventETH)
    ensures p.ventN2O <= 1 && (ByteBool(p.ventN2O) <==> c.ventN2O)
    ensures p.solN2 <= 1 && (ByteBool(p.solN2) <==> c.solN2)
    ensures p.ethMainValvesHoming <= 1 && (ByteBool(p.ethMainValvesHoming) <==> c.ethMainValvesHoming)
    ensures p.n2oMainValvesHoming <= 1 && (ByteBool(p.n2oMainValvesHoming) <==> c.n2oMainValvesHoming)
    ensures p.thrustControl == prev.thrustControl
  {
    prev.(gimbalX := EncodeFloat(c.gimbalX), gimbalY := EncodeFloat(c.gimbalY),
          mainETH := EncodeFloat(c.mainETH), mainN2O := EncodeFloat(c.mainN2O),
          solETH := BoolByte(c.solETH), solN2O := BoolByte(c.solN2O),
          ventETH := BoolByte(c.ventETH), ventN2O := BoolByte(c.ventN2O),
          solN2 := BoolByte(c.solN2),
          ethMainValvesHoming := BoolByte(c.ethMainValvesHoming),
          n2oMainValvesHoming := BoolByte(c.n2oMainValvesHoming))
  }

  /** The filled packet depends on the previous packet only through
      `thrust_control`. Filling twice from an unchanged dictionary gives the
      same packet, and so the same frame. */
  lemma RepeatedFillIdentical<S>(codec: FrameCodec<S>, prev: DownlinkPacket, other: DownlinkPacket, c: Commands)
    requires CommandsEncodable(c)
    ensures other.thrustControl == prev.thrustControl ==> FillDownlink(other, c) == FillDownlink(prev, c)
    ensures FillDownlink(FillDownlink(prev, c), c) == FillDownlink(prev, c)
    ensures codec.encode(PropBoardId, SerializeDownlink(FillDownlink(FillDownlink(prev, c), c)))
         == codec.encode(PropBoardId, SerializeDownlink(FillDownlink(prev, c)))
  {
  }

  /** In range, commands survive the link. The propulsion board parses the
      16 bytes transmit sends and decodes them. It gets every Q9.6 command
      back within half a quantization step (1/128), and every flag exactly. */
  lemma CommandsSurviveLink(prev: DownlinkPacket, c: Commands)
    requires c.gimbalX.Num? && -15.0 <= c.gimbalX.value <= 15.0
    requires c.gimbalY.Num? && -15.0 <= c.gimbalY.value <= 15.0
    requires c.mainETH.Num? && 0.0 <= c.mainETH.value <= 100.0
    requires c.mainN2O.Num? && 0.0 <= c.mainN2O.value <= 100.0
    ensures CommandsEncodable(c)
    ensures var q := ParseDownlink(SerializeDownlink(FillDownlink(prev, c)));
      && -1.0 / 128.0 <= Decode(q.gimbalX) - c.gimbalX.value <= 1.0 / 128.0
      && -1.0 / 128.0 <= Decode(q.gimbalY) - c.gimbalY.value <= 1.0 / 128.0
      && -1.0 / 128.0 <= Decode(q.mainETH) - c.mainETH.value <= 1.0 / 128.0
      && -1.0 / 128.0 <= Decode(q.mainN2O) - c.mainN2O.value <= 1.0 / 128.0
      && ByteBool(q.solETH) == c.solETH && ByteBool(q.solN2O) == c.solN2O
      && ByteBool(q.ventETH) == c.ventETH && ByteBool(q.ventN2O) == c.ventN2O
      && ByteBool(q.solN2) == c.solN2
      && ByteBool(q.ethMainValvesHoming) == c.ethMainValvesHoming
      && ByteBool(q.n2oMainValvesHoming) == c.n2oMainValvesHoming
  {
    RangesFitFixedPoint(DownlinkRanges[0], c.mainETH.value);
    RangesFitFixedPoint(DownlinkRanges[1], c.mainN2O.value);
    RangesFitFixedPoint(DownlinkRanges[2], c.gimbalX.value);
    RangesFitFixedPoint(DownlinkRanges[3], c.gimbalY.value);
    DownlinkRoundTrip(FillDownlink(prev, c));
  }

  /** A fresh dictionary commands both vents open and everything else off or
      zero. An unknown gimbal angle goes out as 0. */
  lemma DefaultCommands(d: ObjectDictionary)
    requires d.IsDefault()
    ensures CommandsEncodable(CommandsOf(d))
    ensures FillDownlink(DefaultDownlink, CommandsOf(d))
         == DownlinkPacket(0, 0, 0, 0, 0, 0, 0, 0, 0, 1, 1, 0)
  {
    Zero();
    assert d.Measurements()[10] == NaN && d.Measurements()[11] == NaN;
    assert !d.Flags()[0] && !d.Flags()[1] && !d.Flags()[2];
    assert !d.Flags()[5] && !d.Flags()[7];
  }

  /** The dictionary fields that receive writes. */
  datatype Telemetry = Telemetry(
    pressureTankETH: real,
    pressureTankN2O: real,
    pressureInjETH: real,
    pressureInjN2O: real,
    chamberPressure: real,
    tempN2O: real,
    hvVoltage: real,
    ethMainValvesHomingDone: bool,
    n2oMainValvesHomingDone: bool)

  /** What receive merges from a status packet. Each value is the Q9.6
      decoding of its field, so it lies in the Q9.6 range. Each flag is
      true exactly when its byte is non-zero. */
  function DecodeTelemetry(p: UplinkPacket): (t: Telemetry)
    ensures MinValue <= t.pressureTankETH <= MaxValue && MinValue <= t.pressureTankN2O <= MaxValue
    ensures MinValue <= t.pressureInjETH <= MaxValue && MinValue <= t.pressureInjN2O <= MaxValue
    ensures MinValue <= t.chamberPressure <= MaxValue
    ensures MinValue <= t.tempN2O <= MaxValue && MinValue <= t.hvVoltage <= MaxValue
    ensures t.ethMainValvesHomingDone <==> p.ethMainValvesHomingDone != 0
    ensures t.n2oMainValvesHomingDone <==> p.n2oMainValvesHomingDone != 0
  {
    Telemetry(
      Decode(p.pressureTankETH), Decode(p.pressureTankN2O),
      Decode(p.pressureInjETH), Decode(p.pressureInjN2O),
      Decode(p.chamberPressure), Decode(p.tempN2O), Decode(p.hvVoltage),
      ByteBool(p.ethMainValvesHomingDone), ByteBool(p.n2oMainValvesHomingDone))
  }

  /** The dictionary holds the merged telemetry `t`. Every merged value is
      then a number, never the NaN sentinel. */
  predicate HoldsTelemetry(d: ObjectDictionary, t: Telemetry)
    reads d
    ensures HoldsTelemetry(d, t) ==>
      && d.pressureTankETH.Num? && d.pressureTankN2O.Num?
      && d.pressureInjETH.Num? && d.pressureInjN2O.Num?
      && d.chamberPressure.Num? && d.tempN2O.Num? && d.hvVoltage.Num?
  {
    && d.pressureTankETH == Num(t.pressureTankETH)
    && d.pressureTankN2O == Num(t.pressureTankN2O)
    && d.pressureInjETH == Num(t.pressureInjETH)
    && d.pressureInjN2O == Num(t.pressureInjN2O)
    && d.chamberPressure == Num(t.chamberPressure)
    && d.tempN2O == Num(t.tempN2O)
    && d.hvVoltage == Num(t.hvVoltage)
    && d.ethMainValvesHomingDone == t.ethMainValvesHomingDone
    && d.n2oMainValvesHomingDone == t.n2oMainValvesHomingDone
  }

  /** Until a status frame arrives, the buffer is the zero-filled one from
      start-up. Merging it writes 0 to every merged value and false to both
      homing flags. */
  lemma StaleZeroBuffer()
    ensures DecodeTelemetry(ParseUplink(ZeroUplinkBuffer))
         == Telemetry(0.0, 0.0, 0.0, 0.0, 0.0, 0.0, 0.0, false, false)
  {
    ZeroBufferIsDefault();
    var t := DecodeTelemetry(DefaultUplink);
    assert Decode(0) == 0.0;
    assert t.pressureTankETH == 0.0 && t.pressureTankN2O == 0.0;
    assert t.pressureInjETH == 0.0 && t.pressureInjN2O == 0.0;
    assert t.chamberPressure == 0.0 && t.tempN2O == 0.0 && t.hvVoltage == 0.0;
  }

  /** The status buffer after the frame handler has seen `frames`, starting
      from `buf`. A frame whose payload is exactly one status packet long
      replaces the buffer, whatever its identifier. Every other frame is
      ignored. */
  function LastUplink(buf: seq<Byte>, frames: seq<Frame>): (r: seq<Byte>)
    ensures |buf| == UplinkSize ==> |r| == UplinkSize
    ensures r == buf || exists i :: 0 <= i < |frames| && r == frames[i].payload
    decreases |frames|
  {
    if frames == [] then buf
    else
      var before := LastUplink(buf, frames[..|frames| - 1]);
      var last := frames[|frames| - 1];
      if |last.payload| == UplinkSize then last.payload
      else
        assert forall i :: 0 <= i < |frames| - 1 ==> frames[..|frames| - 1][i] == frames[i];
        before
  }

  /** One more frame: it replaces the buffer exactly when it has status size. */
  lemma LastUplinkSnoc(buf: seq<Byte>, frames: seq<Frame>, f: Frame)
    ensures LastUplink(buf, frames + [f])
         == if |f.payload| == UplinkSize then f.payload else LastUplink(buf, frames)
  {
    assert (frames + [f])[..|frames|] == frames;
  }

  /** The buffer ends as the payload of the last status-size frame. */
  lemma {:induction false} LastUplinkIsLastMatch(buf: seq<Byte>, frames: seq<Frame>, i: nat)
    requires i < |frames| && |frames[i].payload| == UplinkSize
    requires forall j :: i < j < |frames| ==> |frames[j].payload| != UplinkSize
    ensures LastUplink(buf, frames) == frames[i].payload
    decreases |frames|
  {
    if i < |frames| - 1 {
      var init := frames[..|frames| - 1];
      assert init[i] == frames[i];
      forall j | i < j < |init| ensures |init[j].payload| != UplinkSize {
        assert init[j] == frames[j];
      }
      LastUplinkIsLastMatch(buf, init, i);
    }
  }

  /** Without a status-size frame the buffer is left as it was. */
  lemma {:induction false} LastUplinkNoMatch(buf: seq<Byte>, frames: seq<Frame>)
    requires forall j :: 0 <= j < |frames| ==> |frames[j].payload| != UplinkSize
    ensures LastUplink(buf, frames) == buf
    decreases |frames|
  {
    if frames != [] {
      var init := frames[..|frames| - 1];
      forall j | 0 <= j < |init| ensures |init[j].payload| != UplinkSize {
        assert init[j] == frames[j];
      }
      LastUplinkNoMatch(buf, init);
    }
  }

  /** The identifiers of the frames play no part: frames with the same
      payloads leave the same buffer. */
  lemma {:induction false} LastUplinkIgnoresId(buf: seq<Byte>, frames: seq<Frame>, others: seq<Frame>)
    requires |frames| == |others|
    requires forall j :: 0 <= j < |frames| ==> frames[j].payload == others[j].payload
    ensures LastUplink(buf, frames) == LastUplink(buf, others)
    decreases |frames|
  {
    if frames != [] {
      var n := |frames| - 1;
      forall j | 0 <= j < n ensures frames[..n][j].payload == others[..n][j].payload {
        assert frames[..n][j] == frames[j] && others[..n][j] == others[j];
      }
      LastUplinkIgnoresId(buf, frames[..n], others[..n]);
    }
  }

  /** The serial port: the bytes waiting to be read, the bytes written so
      far, and the room left in the transmit buffer. */
  class SerialPort {
    var input: seq<Byte>
    var output: seq<Byte>
    var writeCapacity: nat

    constructor (input: seq<Byte>, writeCapacity: nat)
      ensures this.input == input && output == [] && this.writeCapacity == writeCapacity
    {
      this.input := input;
      output := [];
      this.writeCapacity := writeCapacity;
    }

    /** `available()`. */
    method Available() returns (n: nat)
      ensures n == |input|
    {
      n := |input|;
    }

    /** `availableForWrite()`. */
    method AvailableForWrite() returns (n: nat)
      ensures n == writeCapacity
    {
      n := writeCapacity;
    }

    /** `read()`: the next byte, or -1 when none is waiting. */
    method Read() returns (r: int)
      modifies this`input
      ensures old(input) == [] ==> r == -1 && input == []
      ensures old(input) != [] ==> r == old(input)[0] && input == old(input)[1..]
    {
      if input == [] {
        r := -1;
      } else {
        r := input[0];
        input := input[1..];
      }
    }

    /** `write(buffer, size)`: the bytes are queued and take up room in the
        transmit buffer. */
    method Write(bytes: seq<Byte>)
      modifies this`output, this`writeCapacity
      ensures output == old(output) + bytes
      ensures writeCapacity == if |bytes| <= old(writeCapacity) then old(writeCapacity) - |bytes| else 0
    {
      output := output + bytes;
      writeCapacity := if |bytes| <= writeCapacity then writeCapacity - |bytes| else 0;
    }
  }

  /** The link's static state: the frame codec and its decoder state, the
      reused command packet and the status buffer. */
  class PropBoardLink<S> {
    const codec: FrameCodec<S>
    var decoder: S
    var downlink: DownlinkPacket
    const uplink: array<Byte>

    ghost predicate Valid()
      reads this
    {
      uplink.Length == UplinkSize && codec.Valid()
    }

    /** `begin_com_prop_board`: the command packet is zero-initialised and
        the status buffer is allocated zero-filled. */
    constructor (codec: FrameCodec<S>, initial: S)
      requires codec.Valid()
      ensures Valid() && fresh(uplink)
      ensures this.codec == codec && decoder == initial
      ensures downlink == DefaultDownlink
      ensures uplink[..] == ZeroUplinkBuffer
    {
      this.codec := codec;
      decoder := initial;
      downlink := DefaultDownlink;
      uplink := new Byte[UplinkSize](_ => 0);
    }

    /** `write_prop_board`. Without room for a whole frame it does nothing.
        Otherwise it fills the command packet from the dictionary and writes
        the encoded frame, exactly `getCodedLen(16)` bytes. It never changes
        the dictionary. */
    method Transmit(d: ObjectDictionary, port: SerialPort)
      requires Valid()
      requires port.writeCapacity >= codec.codedLen(DownlinkSize) ==> CommandsEncodable(CommandsOf(d))
      modifies this`downlink, port`output, port`writeCapacity
      ensures Valid() && unchanged(d)
      ensures old(port.writeCapacity) < codec.codedLen(DownlinkSize) ==>
        && downlink == old(downlink)
        && port.output == old(port.output)
        && port.writeCapacity == old(port.writeCapacity)
      ensures old(port.writeCapacity) >= codec.codedLen(DownlinkSize) ==>
        && downlink == FillDownlink(old(downlink), CommandsOf(d))
        && port.output == old(port.output) + codec.encode(PropBoardId, SerializeDownlink(downlink))
        && |port.output| == |old(port.output)| + codec.codedLen(DownlinkSize)
        && port.writeCapacity == old(port.writeCapacity) - codec.codedLen(DownlinkSize)
    {
      var codedLen := codec.codedLen(DownlinkSize);
      var room := port.AvailableForWrite();
      if room >= codedLen {
        var packetId := PropBoardId;

        downlink := downlink.(gimbalX := EncodeFloat(d.gimbalX));
        downlink := downlink.(gimbalY := EncodeFloat(d.gimbalY));

        downlink := downlink.(mainETH := EncodeFloat(d.mainETH));
        downlink := downlink.(mainN2O := EncodeFloat(d.mainN2O));
        downlink := downlink.(solETH := BoolByte(d.solETH));
        downlink := downlink.(solN2O := BoolByte(d.solN2O));

        downlink := downlink.(ventETH := BoolByte(d.ventETH));
        downlink := downlink.(ventN2O := BoolByte(d.ventN2O));

        downlink := downlink.(solN2 := BoolByte(d.solN2));

        downlink := downlink.(ethMainValvesHoming := BoolByte(d.ethMainValvesHoming));
        downlink := downlink.(n2oMainValvesHoming := BoolByte(d.n2oMainValvesHoming));

        var packetData := SerializeDownlink(downlink);
        var packetToSend := codec.encode(packetId, packetData);
        assert |packetToSend| == codedLen;
        port.Write(packetToSend[..codedLen]);
        assert packetToSend[..codedLen] == packetToSend;
      }
    }

    /** `handleSerialCapsule`: a frame of exactly status size overwrites the
        status buffer, whatever its identifier. Any other frame is dropped. */
    method HandleFrame(packetId: Byte, data: seq<Byte>)
      requires Valid()
      modifies uplink
      ensures uplink[..] == LastUplink(old(uplink[..]), [Frame(packetId, data)])
      ensures uplink[..] == if |data| == UplinkSize then data else old(uplink[..])
    {
      if |data| == UplinkSize {
        forall i | 0 <= i < UplinkSize {
          uplink[i] := data[i];
        }
      }
      LastUplinkSnoc(old(uplink[..]), [], Frame(packetId, data));
      assert [] + [Frame(packetId, data)] == [Frame(packetId, data)];
    }

    /** `read_prop_board`. With fewer bytes waiting than one encoded status
        frame it reads nothing and changes nothing. Otherwise it feeds every
        waiting byte to the decoder. The status buffer ends as the handler
        leaves it after the completed frames. Then the buffer is merged into
        the dictionary, whether or not a frame arrived. No other dictionary
        field is written. */
    method Receive(d: ObjectDictionary, port: SerialPort)
      requires Valid()
      modifies this`decoder, uplink, port`input
      modifies d`pressureTankETH, d`pressureTankN2O, d`pressureInjETH, d`pressureInjN2O
      modifies d`chamberPressure, d`tempN2O, d`hvVoltage
      modifies d`ethMainValvesHomingDone, d`n2oMainValvesHomingDone
      ensures Valid()
      ensures |old(port.input)| < codec.codedLen(UplinkSize) ==>
        && port.input == old(port.input)
        && decoder == old(decoder)
        && uplink[..] == old(uplink[..])
        && unchanged(d)
      ensures |old(port.input)| >= codec.codedLen(UplinkSize) ==>
        var drained := Drain(codec.decode, old(decoder), old(port.input));
        && port.input == []
        && decoder == drained.0
        && uplink[..] == LastUplink(old(uplink[..]), drained.1)
        && HoldsTelemetry(d, DecodeTelemetry(ParseUplink(uplink[..])))
    {
      var waiting := port.Available();
      if waiting < codec.codedLen(UplinkSize) {
        return;
      }

      DrainInput(port);
      MergeStatus(d);
    }

    /** The drain loop of `read_prop_board`: every waiting byte goes to the
        decoder, one at a time, and every completed frame to the handler. */
    method DrainInput(port: SerialPort)
      requires Valid()
      modifies this`decoder, uplink, port`input
      ensures Valid()
      ensures port.input == []
      ensures decoder == Drain(codec.decode, old(decoder), old(port.input)).0
      ensures uplink[..] == LastUplink(old(uplink[..]), Drain(codec.decode, old(decoder), old(port.input)).1)
    {
      ghost var bytes := port.input;
      ghost var decoder0 := decoder;
      ghost var buffer0 := uplink[..];
      ghost var k := 0;
      var waiting := port.Available();
      while waiting > 0
        invariant 0 <= k <= |bytes|
        invariant port.input == bytes[k..] && waiting == |port.input|
        invariant decoder == Drain(codec.decode, decoder0, bytes[..k]).0
        invariant uplink[..] == LastUplink(buffer0, Drain(codec.decode, decoder0, bytes[..k]).1)
        decreases |port.input|
      {
        ghost var before := Drain(codec.decode, decoder0, bytes[..k]);
        var c := port.Read();
        var b: Byte := c;
        var step := codec.decode(decoder, b);
        decoder := step.0;
        if step.1.Some? {
          HandleFrame(step.1.value.id, step.1.value.payload);
          LastUplinkSnoc(buffer0, before.1, step.1.value);
        } else {
          assert before.1 + Completed(step.1) == before.1;
        }
        assert bytes[..k + 1][..k] == bytes[..k];
        k := k + 1;
        waiting := port.Available();
      }
      assert bytes[..k] == bytes;
    }

    /** The merge at the end of `read_prop_board`: each merged dictionary
        field takes the decoding of its status-buffer field. */
    method MergeStatus(d: ObjectDictionary)
      requires Valid()
      modifies d`pressureTankETH, d`pressureTankN2O, d`pressureInjETH, d`pressureInjN2O
      modifies d`chamberPressure, d`tempN2O, d`hvVoltage
      modifies d`ethMainValvesHomingDone, d`n2oMainValvesHomingDone
      ensures HoldsTelemetry(d, DecodeTelemetry(ParseUplink(uplink[..])))
    {
      var packet := ParseUplink(uplink[..]);
      d.pressureTankETH := Num(Decode(packet.pressureTankETH));
      d.pressureTankN2O := Num(Decode(packet.pressureTankN2O));
      d.pressureInjETH := Num(Decode(packet.pressureInjETH));
      d.pressureInjN2O := Num(Decode(packet.pressureInjN2O));
      d.chamberPressure := Num(Decode(packet.chamberPressure));
      d.tempN2O := Num(Decode(packet.tempN2O));
      d.hvVoltage := Num(Decode(packet.hvVoltage));
      d.ethMainValvesHomingDone := ByteBool(packet.ethMainValvesHomingDone);
      d.n2oMainValvesHomingDone := ByteBool(packet.n2oMainValvesHomingDone);
    }
  }
}
