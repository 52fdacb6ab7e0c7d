# Propulsion-board link: fixed-point codec, packet layouts and duplex pump

This project models and proves properties of the link between the flight
computer and the propulsion board of a liquid-rocket test vehicle (EPFL Rocket
Team). The link has three parts:

- **Q9.6 fixed-point codec** (`fixed_point.dfy`, module `FixedPoint`).
  `float_to_fixed16` scales a value by 64 and rounds it half away from zero.
  It saturates the result to [-32768, 32767] and returns the two's-complement
  bit pattern as a 16-bit word. `fixed16_to_float` reads the word back as a
  signed integer and divides it by 64. Values are exact reals. The codec
  exists twice in the source, identically: `object_dictionary.h:24-50` and
  `com_prop_board.cpp:17-40`. It is modelled once.
- **Packed wire schema** (`packets.dfy`, module `Packets`; `bytes.dfy`,
  module `Bytes`). The 16-byte command ("downlink") packet and the 28-byte
  status ("uplink") packet are datatypes. Each has a serialiser to bytes and
  a parser back. The pump sends and receives the structures as raw memory,
  so a `uint16_t` field is little-endian, the byte order of the Teensy/ARM
  target. `PROP_BOARD_ID` is `PropBoardId` (46).
- **Object dictionary** (`object_dictionary.dfy`, module `Dictionary`). A
  class with one field per dictionary member, in the source's order. The
  constructor sets the source's default initialisers. A C `float` is
  `Float = NaN | Num(real)`: NaN is the "unknown" sentinel.
- **Frame codec** (`capsule.dfy`, module `Capsule`). The Capsule codec is a
  black box: a value of three functions, `codedLen`, `encode` and
  `decode`. `decode` steps an opaque decoder state `S` by one byte and
  sometimes reports a completed frame (identifier and payload).
  `FrameCodec.Valid` is the one fact the pump relies on: the encoded frame
  is `codedLen` bytes long. `Drain` runs the decoder over a byte sequence.
- **Duplex pump** (`com_prop_board.dfy`, module `PropBoard`).
  - `SerialPort` stands for the UART: the bytes waiting to be read, the bytes
    written, and the room left for writing.
  - `PropBoardLink` holds the static state of `com_prop_board.cpp`: the
    codec and its decoder state, the reused command packet, and the status
    buffer (a 28-byte array, zero-filled at start-up).
  - `Transmit` is `write_prop_board`, `Receive` is `read_prop_board`, and
    `HandleFrame` is the frame callback `handleSerialCapsule`.
  - Each of them is proved against pure specification functions:
    `FillDownlink` (the command packet after a send), `LastUplink` (the
    status buffer after a run of frames), `Drain`, and `DecodeTelemetry`
    (what the merge writes into the dictionary).

The dictionary is an explicit object passed to `Transmit` and `Receive`, not
the global `objDict`. A `modifies` clause written field by field says which
dictionary fields `Receive` may write. Every other field is therefore
unchanged. `Transmit` does not modify the dictionary at all.

### Source inconsistencies and how the model resolves them

`com_prop_board.cpp` names fields that do not exist. The model uses the
names in the header and in the dictionary:

- Line 68 assigns `main_valves_homing`. The model sets the packet's
  `ETH_main_valves_homing` and `N2O_main_valves_homing` (com_prop_board.h:37-38)
  from the dictionary fields of the same names (object_dictionary.h:115,118).
- Lines 94-95 read `pressure_ETH` and `pressure_N2O`. The model uses
  `pressure_tank_ETH` and `pressure_tank_N2O` (com_prop_board.h:52-53,
  object_dictionary.h:80-81).
- Line 101 writes `main_valves_homing_done`. The model merges
  `ETH_main_valves_homing_done` and `N2O_main_valves_homing_done`
  (com_prop_board.h:66-67).
- Line 69 assigns `downlink_packet.gimbal_homing`, and line 102 reads
  `uplink_packet->gimbal_homing_done`. Neither packet has such a field, so
  the model drops both assignments. The dictionary's `gimbal_homing_done`
  is never written by receive.
- `write_prop_board` is declared returning `bool` (com_prop_board.h:24) but
  defined `void` (com_prop_board.cpp:48). The model follows the definition:
  `Transmit` returns nothing. Whether a frame went out can be read from its
  postcondition.
- `thrust_control` (com_prop_board.h:40) is never assigned by transmit. It
  keeps its previous value (`FillDownlink`).
- Receive never merges the line pressures, valve positions or gimbal
  positions of the status packet (com_prop_board.h:56-63).

A wrong-length frame does not leave the dictionary unchanged: the code merges the status buffer unconditionally once enough bytes were
waiting (com_prop_board.cpp:92-103). The dictionary is therefore rewritten
from the unchanged, possibly stale or all-zero, buffer. The model follows
the code. `StaleZeroBuffer` states what the merge writes before any status
frame has arrived.

## Model

| member | source | states |
|---|---|---|
| FixedPoint.Round | object_dictionary.h:27 | `roundf` returns the nearest integer, ties away from zero. The two-sided bounds on each sign determine the result uniquely. |
| FixedPoint.Clamp | object_dictionary.h:29-34 | The range check yields a value in [-0x8000, 0x7FFF]. It is the identity inside that range. |
| FixedPoint.LowBits | object_dictionary.h:37 | Masking with 0xFFFF keeps the integer's residue modulo 65536, and leaves a value that already fits in 16 bits unchanged. |
| FixedPoint.Signed | object_dictionary.h:45-46 | Reading a word as `int16_t` gives a value in [-32768, 32767]. Its low 16 bits are the word again. |
| FixedPoint.Encode | object_dictionary.h:24-38 | Read as signed, the encoder's word is exactly `Clamp(Round(v*64))`. It requires the conversion of the rounded value to `int32_t` to be defined. |
| FixedPoint.Decode | object_dictionary.h:43-50 | A decoded value lies in [-512, 511.984375] and is the signed word divided by 64. |
| FixedPoint.SignedLowBits | object_dictionary.h:36-37 | Keeping the low 16 bits of an in-range integer and reading them as signed gives the integer back. |
| FixedPoint.RoundInteger | object_dictionary.h:27 | Rounding leaves integers unchanged. |
| FixedPoint.RoundMonotone | object_dictionary.h:27 | Rounding is non-decreasing. |
| FixedPoint.ClampMonotone | object_dictionary.h:29-34 | Saturation is non-decreasing. |
| FixedPoint.EncodeMonotone | object_dictionary.h:24-38 | v1 <= v2 implies signed(encode(v1)) <= signed(encode(v2)). |
| FixedPoint.EncodeSaturates | object_dictionary.h:30-34 | If round(v*64) > 32767 the word is 0x7FFF. If round(v*64) < -32768 the word is 0x8000. |
| FixedPoint.EncodeOutOfRange | com_prop_board.cpp:17-31 | Any v > 511.984375 encodes like 511.984375 (0x7FFF). Any v < -512 encodes like -512 (0x8000). |
| FixedPoint.Zero | object_dictionary.h:24-50 | 0.0 encodes to 0, and 0 decodes to 0.0. |
| FixedPoint.DecodeSign | object_dictionary.h:45-49 | A word w < 0x8000 decodes to w/64. A word w >= 0x8000 decodes to (w - 65536)/64. A decoded value is negative exactly when the high bit is set. |
| FixedPoint.GridRoundTrip | object_dictionary.h:24-50 | Every integer n in [-32768, 32767] satisfies decode(encode(n/64)) == n/64. |
| FixedPoint.WordRoundTrip | com_prop_board.cpp:17-40 | Every word w satisfies encode(decode(w)) == w, so the codec is a bijection between words and the Q9.6 grid. |
| FixedPoint.QuantizationError | object_dictionary.h:24-50 | On [-512, 511.984375] the encoder never saturates, and decode(encode(v)) is within 1/128 of v. |
| Bytes.WordBytes | com_prop_board.cpp:71 | A `uint16_t` sits in memory as two bytes, low byte first. |
| Bytes.WordBytesRoundTrip | com_prop_board.cpp:71 | A word written little-endian reads back as itself. |
| Bytes.WordAt | com_prop_board.cpp:109 | A `uint16_t` read out of the copied raw buffer has the byte at the offset as its low byte and the next byte as its high byte. |
| Bytes.BytesWordRoundTrip | com_prop_board.cpp:109 | Any two bytes of a copied buffer are the encoding of the word they spell. |
| Bytes.SameWordSameBytes | com_prop_board.cpp:109 | Two buffers holding the same word at an offset agree on both bytes of it. |
| Packets.SerializeDownlink | com_prop_board.h:28-45 | The command packet is 16 bytes. `main_ETH`@0, `main_N2O`@2, `sol_ETH`@4, `sol_N2O`@5, `gimbal_x`@6, `gimbal_y`@8, `ETH_main_valves_homing`@10, `N2O_main_valves_homing`@11, `thrust_control`@12, `vent_ETH`@13, `vent_N2O`@14, `sol_N2`@15. |
| Packets.ParseDownlink | com_prop_board.h:28-48 | Every 16-byte buffer is the image of the packet it parses to. |
| Packets.SerializeUplink | com_prop_board.h:51-73 | The status packet is 28 bytes. Eleven words sit at offsets 0..20, the homing-done bytes at 22 and 23, `temp_N2O`@24 and `hv_voltage`@26. |
| Packets.UplinkBytesDetermined | com_prop_board.h:51-73 | Two 28-byte buffers that agree on every field of the status layout are equal, so the fields cover every byte. |
| Packets.ParseUplink | com_prop_board.h:51-76 | Every 28-byte buffer parses (there is no field validation), and serialising the result gives the same bytes. |
| Packets.DownlinkRoundTrip | com_prop_board.h:28-45 | Parse(Serialize(p)) == p for command packets. |
| Packets.UplinkRoundTrip | com_prop_board.h:51-73 | Parse(Serialize(p)) == p for status packets. |
| Packets.DefaultsAreZero | com_prop_board.h:29-72 | A default-constructed packet of either kind serialises to all-zero bytes. |
| Packets.ZeroBufferIsDefault | com_prop_board.cpp:45 | The zero-filled status buffer parses to the default status packet. |
| Packets.ConcatLength | com_prop_board.h:28-76 | Byte strings laid back to back take up exactly the sum of their widths. |
| Packets.DownlinkFields | com_prop_board.h:29-44 | Each command-packet field's image has the width of its type: 2 bytes for a `uint16_t`, 1 for a `uint8_t`, in declaration order. |
| Packets.UplinkFields | com_prop_board.h:52-72 | Each status-packet field's image has the width of its type, in declaration order. |
| Packets.DownlinkIsFields | com_prop_board.h:28-45 | The serialised command packet is its fields' images laid back to back. |
| Packets.UplinkIsFields | com_prop_board.h:51-73 | The serialised status packet is its fields' images laid back to back. |
| Packets.NoPadding | com_prop_board.h:28-76 | Each packet is the concatenation of its fields' images, so its size (16 and 28) is the sum of its field widths: there is no padding. |
| Packets.RangesFitFixedPoint | com_prop_board.h:29-72 | Every documented range lies inside Q9.6: gimbal [-15,15], main valves [0,100], pressures [0,50], positions [0,100], temp [-70,40], hv [0,26]. An in-range value never saturates and decodes to within 1/128 of itself. |
| Capsule.Drain | com_prop_board.cpp:85-89 | Feeding bytes to the decoder one at a time gives a final state and the completed frames in order, at most one frame per byte. |
| Capsule.DrainAppend | com_prop_board.cpp:85-89 | Draining xs then ys is the same as draining xs + ys. |
| Dictionary.ObjectDictionary.constructor | object_dictionary.h:57-134 | Default dictionary: every measurement is NaN, `vent_ETH` and `vent_N2O` are true, `main_ETH` and `main_N2O` are 0.0, every other flag is false, and `hopper_state` is IDLE. |
| PropBoard.EncodeFloat | com_prop_board.cpp:55-58 | `float_to_fixed16` on a dictionary float. A number encodes with the Q9.6 encoder. NaN encodes to the zero word. |
| PropBoard.ByteBool | com_prop_board.cpp:101 | The `(bool)` cast of a byte is false exactly for 0. On the bytes 0 and 1 it is the inverse of the flag byte conversion. |
| PropBoard.CommandsOf | com_prop_board.cpp:55-69 | Transmit reads exactly eleven dictionary fields: the gimbal angles, the main valves, the three solenoids, the two vents and the two homing commands. |
| PropBoard.BoolByte | com_prop_board.cpp:60-69 | A flag byte is 0 or 1, and it is 1 exactly when the flag is true. |
| PropBoard.FillDownlink | com_prop_board.cpp:55-69 | After a send, the four Q9.6 fields hold the encoding of their dictionary values. Each flag byte is 0 or 1 and equals its dictionary flag. `thrust_control` keeps its previous value. |
| PropBoard.RepeatedFillIdentical | com_prop_board.cpp:48-78 | The filled packet depends on the old packet only through `thrust_control`. Two sends from an unchanged dictionary give the same packet and a byte-identical frame. |
| PropBoard.CommandsSurviveLink | com_prop_board.cpp:55-73 | The receiver parses the sent bytes. It gets in-range gimbal and valve commands back within 1/128, and every flag exactly. |
| PropBoard.DefaultCommands | com_prop_board.cpp:55-69 | A default dictionary sends vents open (1), everything else 0. An unknown gimbal angle is sent as 0. |
| PropBoard.DecodeTelemetry | com_prop_board.cpp:94-101 | Every merged value is the Q9.6 decoding of its status field, so it lies in [-512, 511.984375]. A homing-done flag is true exactly when its byte is non-zero. |
| PropBoard.HoldsTelemetry | com_prop_board.cpp:94-101 | The merged dictionary fields hold given telemetry. Every merged value is then a number, never the NaN sentinel. |
| PropBoard.StaleZeroBuffer | com_prop_board.cpp:45 | Before any status frame arrives, the merge writes 0.0 to every merged value and false to both homing-done flags. |
| PropBoard.LastUplink | com_prop_board.cpp:106-110 | The buffer after a run of frames keeps the status size, and is either the old buffer or one of the frames' payloads. |
| PropBoard.LastUplinkSnoc | com_prop_board.cpp:108-109 | One more frame replaces the buffer exactly when its payload is 28 bytes long. |
| PropBoard.LastUplinkIsLastMatch | com_prop_board.cpp:106-110 | The buffer ends as the payload of the last 28-byte frame. |
| PropBoard.LastUplinkNoMatch | com_prop_board.cpp:106-110 | Without a 28-byte frame, the buffer is unchanged. |
| PropBoard.LastUplinkIgnoresId | com_prop_board.cpp:106-108 | Frame identifiers play no part: frames with the same payloads leave the same buffer. |
| PropBoard.SerialPort.Available | com_prop_board.cpp:82 | `available()` is the number of bytes waiting to be read. |
| PropBoard.SerialPort.AvailableForWrite | com_prop_board.cpp:51 | `availableForWrite()` is the room left in the transmit buffer. |
| PropBoard.SerialPort.Read | com_prop_board.cpp:87 | `read()` takes the first waiting byte off the queue. With nothing waiting it returns -1 and changes nothing. |
| PropBoard.SerialPort.Write | com_prop_board.cpp:75 | `write(buffer, size)` appends the bytes to the output and takes up their room, down to none. |
| PropBoard.PropBoardLink.constructor | com_prop_board.cpp:42-46 | At start-up the status buffer is a fresh zero-filled 28-byte array, and the command packet is all zero. |
| PropBoard.PropBoardLink.Transmit | com_prop_board.cpp:48-78 | With less room than `codedLen(16)`, nothing is written and the packet is unchanged. Otherwise the packet becomes `FillDownlink` of the dictionary, and exactly `encode(46, Serialize(packet))` (`codedLen(16)` bytes) is appended to the output. The dictionary is never modified. |
| PropBoard.PropBoardLink.HandleFrame | com_prop_board.cpp:106-110 | A 28-byte payload overwrites the whole buffer, whatever the identifier. Any other length leaves it unchanged. |
| PropBoard.PropBoardLink.Receive | com_prop_board.cpp:80-104 | With fewer than `codedLen(28)` bytes waiting, nothing is read or changed. Otherwise every waiting byte is consumed, the decoder state is `Drain` of them, and the buffer is `LastUplink` of the completed frames. Then the dictionary holds `DecodeTelemetry` of the buffer, whether or not a frame arrived. No other dictionary field changes. |
| PropBoard.PropBoardLink.DrainInput | com_prop_board.cpp:85-89 | Every waiting byte is consumed. The decoder state becomes `Drain` of the bytes, and the status buffer becomes `LastUplink` of the frames completed on the way. |
| PropBoard.PropBoardLink.MergeStatus | com_prop_board.cpp:91-103 | Each merged dictionary field equals the decoding of its status-buffer field (`!= 0` for the flags). |

## Left out

- `printObjectDictionary` (object_dictionary.h:144-221) is console output only.
- `objectDictionaryCSV` and `objectDictionaryCSVHeader` (object_dictionary.h:224-275) depend on the formatting of floats by C++ streams, and are not modelled.
- Floating point: values are exact reals, and the model accepts any real where the source takes one of the finitely many `float` values. On finite floats the encoder accepts, multiplying by 64 is exact, because it scales by a power of two. Dividing an `int16_t` by 64 is exact in `float` as well. So on those inputs the model computes what the source computes. Infinities are not modelled.
- FixedPoint.Encode: requires the rounded, scaled value to fit in `int32_t`. The source's conversion is undefined behaviour otherwise.
- PropBoard.PropBoardLink.Transmit: requires the same of the four command values it encodes, for the same reason. The requirement applies only when there is room for a frame, because otherwise transmit converts nothing.
- NaN: C leaves the conversion of NaN to an integer undefined. The model encodes NaN as 0 (`EncodeFloat`), as the target's conversion instruction does. A default dictionary (NaN gimbal angles) therefore sends gimbal words of 0.
- The Capsule codec's internals (framing, checksums, decoder state) are not part of this model: the codec is a parameter of the pump.
- Receive: the model runs the frame callback inside the drain loop, right after the decoder step that completes the frame, as the source does. It states the outcome in terms of `Drain` and `LastUplink`.
- PropBoard.PropBoardLink.Receive and PropBoard.PropBoardLink.DrainInput: the drain loop works on the bytes waiting when it starts. On the target the loop re-polls a queue that the UART keeps filling, so it also consumes bytes that arrive during the drain. Under a continuous stream it need not terminate. The model's `port.input == []` holds only of that snapshot.
- UART hardware, the baud rate and `AV_RS232.begin` are not modelled. `SerialPort` keeps only the read queue, the written bytes and the write room. Writing takes up room. Draining of the transmit buffer by the hardware is not modelled.
- A `calloc` failure in `begin_com_prop_board` (com_prop_board.cpp:45), and the null check at :92 that guards against it, are not modelled: in the model the buffer always exists. Freeing the encoded frame (:76) is not modelled either.
- The global `objDict` instance (object_dictionary.h:141) is replaced by an explicit dictionary object.
- The `FSM` enumeration is a datatype. The source has no transitions to model.
