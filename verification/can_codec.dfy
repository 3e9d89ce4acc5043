/** The CAN frames the firmware exchanges with the two joint motors: the
    command frame layout (`sendCanCommand`), the position-command payloads
    (0xA3, 0xA4), and the reply decoding in `handleCanMessage` (0x92
    multi-turn angle, 0x9A and 0x9C status). */
module CanCodec {
  import opened Wrappers
  import Clock

  type Byte = x: int | 0 <= x < 256

  /** `CAN_CMD_BASE_ID`: command and reply frames use 0x140 + motor id. */
  const BaseId: nat := 0x140
  /** Ids `handleCanMessage` treats as motor replies: [0x140, 0x140 + 33). */
  const ReplyIdSpan: nat := 33
  const HipMotorId: nat := 1
  const AnkleMotorId: nat := 2

  const CmdReadMultiAngle: Byte := 0x92
  const CmdReadStatus1: Byte := 0x9A
  const CmdReadStatus2: Byte := 0x9C
  const CmdPositionCtrl1: Byte := 0xA3
  const CmdPositionCtrl2: Byte := 0xA4

  /** A standard CAN frame: every frame the firmware handles carries eight
      data bytes. */
  datatype Frame = Frame(id: nat, len: nat, buf: seq<Byte>)

  predicate WellFormed(f: Frame) {
    |f.buf| == 8
  }

  // --------------------------------------------------- little-endian bytes

  function Pow256(n: nat): (r: nat)
    ensures r > 0
  {
    if n == 0 then 1 else 256 * Pow256(n - 1)
  }

  /** The unsigned value of little-endian bytes. */
  function LeValue(bs: seq<Byte>): (r: nat)
    ensures r < Pow256(|bs|)
  {
    if bs == [] then 0 else bs[0] as int + 256 * LeValue(bs[1..])
  }

  /** The `n` little-endian bytes of `v`, least significant first. */
  function LeBytes(v: nat, n: nat): (r: seq<Byte>)
    requires v < Pow256(n)
    ensures |r| == n
  {
    if n == 0 then [] else [v % 256] + LeBytes(v / 256, n - 1)
  }

  lemma {:induction false} LeValueOfBytes(v: nat, n: nat)
    requires v < Pow256(n)
    ensures LeValue(LeBytes(v, n)) == v
  {
    if n > 0 {
      LeValueOfBytes(v / 256, n - 1);
      assert LeBytes(v, n)[1..] == LeBytes(v / 256, n - 1);
    }
  }

  lemma {:induction false} LeBytesOfValue(bs: seq<Byte>)
    ensures LeBytes(LeValue(bs), |bs|) == bs
  {
    if bs != [] {
      var t := LeValue(bs[1..]);
      var v := bs[0] as int + 256 * t;
      assert v % 256 == bs[0] as int && v / 256 == t;
      LeBytesOfValue(bs[1..]);
      assert LeBytes(v, |bs|) == [bs[0]] + LeBytes(t, |bs| - 1);
      assert bs == [bs[0]] + bs[1..];
    }
  }

  /** Byte `k` of the encoding is `(v >> 8k) & 0xFF`, the expression the
      firmware writes for each byte. */
  lemma {:induction false} LeByteIsShiftMask(v: nat, n: nat, k: nat)
    requires v < Pow256(n) && k < n
    ensures LeBytes(v, n)[k] == (v / Pow256(k)) % 256
  {
    if k > 0 {
      LeByteIsShiftMask(v / 256, n - 1, k - 1);
      DivDiv(v, Pow256(k - 1));
    }
  }

  lemma DivDiv(v: nat, p: nat)
    requires p > 0
    ensures v / 256 / p == v / (256 * p)
  {
    var q := v / 256 / p;
    var r := 256 * ((v / 256) % p) + v % 256;
    assert v / 256 == p * q + (v / 256) % p;
    assert v == 256 * (v / 256) + v % 256;
    assert 256 * (p * q) == (256 * p) * q;
    assert v == (256 * p) * q + r;
    DivUnique(v, 256 * p, q, r);
  }

  /** Division is determined by quotient and remainder. */
  lemma DivUnique(v: int, d: int, q: int, r: int)
    requires d > 0 && v == d * q + r && 0 <= r < d
    ensures v / d == q
  {
    var q0 := v / d;
    var r0 := v % d;
    assert v == d * q0 + r0 && 0 <= r0 < d;
    if q > q0 {
      MulAtLeast(d, q - q0);
    } else if q < q0 {
      MulAtLeast(d, q0 - q);
    }
  }

  lemma {:induction false} MulAtLeast(d: int, x: int)
    requires d > 0 && x >= 1
    ensures d * x >= d
    decreases x
  {
    if x > 1 {
      MulAtLeast(d, x - 1);
      assert d * x == d * (x - 1) + d;
    }
  }

  // ------------------------------------------------------- two's complement

  /** Half the range of an `n`-byte value: the first pattern read as
      negative. */
  function Half(n: nat): (r: int)
    requires n > 0
    ensures r > 0 && Pow256(n) == 2 * r
  {
    128 * Pow256(n - 1)
  }

  /** The two's-complement reading of an `n`-byte unsigned value. */
  function Signed(u: nat, n: nat): (r: int)
    requires 0 < n && u < Pow256(n)
    ensures -Half(n) <= r < Half(n)
    ensures r == u || r == u - Pow256(n)
  {
    if u >= Half(n) then u - Pow256(n) else u
  }

  /** The `n`-byte two's-complement pattern of a signed value. */
  function Unsigned(v: int, n: nat): (r: nat)
    requires 0 < n && -Half(n) <= v < Half(n)
    ensures r < Pow256(n)
    ensures r == v || r == v + Pow256(n)
  {
    if v < 0 then v + Pow256(n) else v
  }

  lemma SignedUnsigned(v: int, n: nat)
    requires 0 < n && -Half(n) <= v < Half(n)
    ensures Signed(Unsigned(v, n), n) == v
  {
  }

  lemma UnsignedSigned(u: nat, n: nat)
    requires 0 < n && u < Pow256(n)
    ensures Unsigned(Signed(u, n), n) == u
  {
  }

  // ---------------------------------------------------------- command frames

  function Min(a: nat, b: nat): nat {
    if a < b then a else b
  }

  /** `sendCanCommand(motorId, cmd, data, dataLen)`: id 0x140 + motor id,
      eight data bytes, byte 0 the command, then up to seven bytes copied
      from `data` (`None` when `data` is null), the rest zero. The caller must
      supply at least the bytes it asks to have copied. */
  function CommandFrame(motorId: Byte, cmd: Byte, data: Option<seq<Byte>>, dataLen: Byte): (f: Frame)
    requires data.Some? ==> |data.value| >= Min(dataLen, 7)
    ensures f.id == BaseId + motorId && f.len == 8 && WellFormed(f)
    ensures f.buf[0] == cmd
    ensures var n := if data.Some? then Min(dataLen, 7) else 0;
      && (forall i :: 1 <= i <= n ==> f.buf[i] == data.value[i - 1])
      && (forall i :: n < i < 8 ==> f.buf[i] == 0)
  {
    var n := if data.Some? && dataLen > 0 then Min(dataLen, 7) else 0;
    var copied := if n > 0 then data.value[..n] else [];
    Frame(BaseId + motorId, 8, [cmd] + copied + Zeros(7 - n))
  }

  function Zeros(n: nat): (r: seq<Byte>)
    ensures |r| == n && forall i :: 0 <= i < n ==> r[i] == 0
  {
    seq(n, i => 0)
  }

  /** A query command carries no data: everything after the command byte
      is zero. */
  lemma QueryFrameIsBare(motorId: Byte, cmd: Byte)
    ensures CommandFrame(motorId, cmd, None, 0).buf == [cmd, 0, 0, 0, 0, 0, 0, 0]
  {
  }

  // ------------------------------------------------------ position payloads

  type Int32 = x: int | -0x8000_0000 <= x < 0x8000_0000

  type U16 = x: int | 0 <= x < 0x1_0000

  /** The four little-endian bytes of a signed 32-bit target. */
  function Int32Bytes(v: Int32): (r: seq<Byte>)
    ensures |r| == 4
  {
    assert Half(4) == 0x8000_0000;
    LeBytes(Unsigned(v, 4), 4)
  }

  function Int32Of(bs: seq<Byte>): (r: Int32)
    requires |bs| == 4
  {
    assert Half(4) == 0x8000_0000;
    Signed(LeValue(bs), 4)
  }

  lemma Int32RoundTrip(v: Int32)
    ensures Int32Of(Int32Bytes(v)) == v
  {
    assert Half(4) == 0x8000_0000;
    LeValueOfBytes(Unsigned(v, 4), 4);
    SignedUnsigned(v, 4);
  }

  /** The seven data bytes of a 0xA3 command: three zero bytes, then the
      target in units of 0.01 degree. */
  function PositionPayload(target: Int32): (r: seq<Byte>)
    ensures |r| == 7 && r[0] == 0 && r[1] == 0 && r[2] == 0 && r[3..] == Int32Bytes(target)
  {
    [0, 0, 0] + Int32Bytes(target)
  }

  /** The seven data bytes of a 0xA4 command: a zero byte, the speed limit
      as a little-endian `uint16`, then the target. */
  function PositionSpeedPayload(target: Int32, maxSpeed: U16): (r: seq<Byte>)
    ensures |r| == 7 && r[0] == 0 && r[3..] == Int32Bytes(target)
    ensures LeValue(r[1..3]) == maxSpeed
  {
    LeValueOfBytes(maxSpeed, 2);
    var sp := LeBytes(maxSpeed, 2);
    assert ([0] + sp + Int32Bytes(target))[1..3] == sp;
    [0] + sp + Int32Bytes(target)
  }

  /** `sendPositionCommand`: to the motor's id, 0xA3, three zero bytes, then
      the target as a little-endian `int32`. */
  function PositionFrame(motorId: Byte, target: Int32): (f: Frame)
    ensures WellFormed(f) && f.id == BaseId + motorId && f.buf[0] == CmdPositionCtrl1
    ensures f.buf[1] == 0 && f.buf[2] == 0 && f.buf[3] == 0
    ensures f.buf[4..8] == Int32Bytes(target) && Int32Of(f.buf[4..8]) == target
  {
    var p := PositionPayload(target);
    var f := CommandFrame(motorId, CmdPositionCtrl1, Some(p), 7);
    assert f.buf[4..8] == p[3..];
    Int32RoundTrip(target);
    f
  }

  /** `sendPositionCommandWithSpeed`: to the motor's id, 0xA4, a zero byte,
      the speed limit as a little-endian `uint16`, then the target as a
      little-endian `int32`. */
  function PositionSpeedFrame(motorId: Byte, target: Int32, maxSpeed: U16): (f: Frame)
    ensures WellFormed(f) && f.id == BaseId + motorId && f.buf[0] == CmdPositionCtrl2
    ensures f.buf[1] == 0 && LeValue(f.buf[2..4]) == maxSpeed
    ensures f.buf[4..8] == Int32Bytes(target) && Int32Of(f.buf[4..8]) == target
  {
    var p := PositionSpeedPayload(target, maxSpeed);
    var f := CommandFrame(motorId, CmdPositionCtrl2, Some(p), 7);
    assert f.buf[4..8] == p[3..];
    assert f.buf[2..4] == p[1..3];
    Int32RoundTrip(target);
    f
  }

  /** What a motor reads out of a position command frame. */
  datatype PositionCommand = PositionCommand(motorId: nat, target: int, maxSpeed: Option<nat>)

  function DecodePositionCommand(f: Frame): (r: Option<PositionCommand>)
    requires WellFormed(f)
    ensures r.Some? ==> f.id >= BaseId
  {
    if f.id < BaseId then None
    else if f.buf[0] == CmdPositionCtrl1 then
      Some(PositionCommand(f.id - BaseId, Int32Of(f.buf[4..8]), None))
    else if f.buf[0] == CmdPositionCtrl2 then
      Some(PositionCommand(f.id - BaseId, Int32Of(f.buf[4..8]), Some(LeValue(f.buf[2..4]))))
    else None
  }

  /** Reassembling a 0xA3 frame recovers the motor and the target. */
  lemma PositionFrameRoundTrip(motorId: Byte, target: Int32)
    ensures DecodePositionCommand(PositionFrame(motorId, target))
         == Some(PositionCommand(motorId, target, None))
  {
  }

  /** Reassembling a 0xA4 frame recovers the motor, the target and the
      speed limit. */
  lemma PositionSpeedFrameRoundTrip(motorId: Byte, target: Int32, maxSpeed: U16)
    ensures DecodePositionCommand(PositionSpeedFrame(motorId, target, maxSpeed))
         == Some(PositionCommand(motorId, target, Some(maxSpeed)))
  {
  }

  // ---------------------------------------------------------------- replies

  /** The signed 48-bit reading of bytes 1-6 of a 0x92 reply, with the sign
      taken from bit 7 of byte 6; byte 7 is not read. */
  function MultiTurnAngle(buf: seq<Byte>): (r: int)
    requires |buf| == 8
    ensures -0x8000_0000_0000 <= r < 0x8000_0000_0000
    ensures (r < 0) <==> buf[6] >= 0x80
  {
    var u := LeValue(buf[1..7]);
    assert u < 0x1_0000_0000_0000 by { assert Pow256(6) == 0x1_0000_0000_0000; }
    LeTopByte(buf[1..7]);
    if buf[6] >= 0x80 then u - 0x1_0000_0000_0000 else u
  }

  /** The top byte decides whether a six-byte value reaches the upper half
      of its range. */
  lemma LeTopByte(bs: seq<Byte>)
    requires |bs| == 6
    ensures LeValue(bs) >= 0x8000_0000_0000 <==> bs[5] >= 0x80
  {
    LeSix(bs);
  }

  lemma LeSix(bs: seq<Byte>)
    requires |bs| == 6
    ensures LeValue(bs) == bs[0] as int + 0x100 * (bs[1] as int) + 0x1_0000 * (bs[2] as int)
      + 0x100_0000 * (bs[3] as int) + 0x1_0000_0000 * (bs[4] as int) + 0x100_0000_0000 * (bs[5] as int)
  {
    assert bs[1..][1..] == bs[2..] && bs[2..][1..] == bs[3..] && bs[3..][1..] == bs[4..];
    assert bs[4..][1..] == bs[5..] && bs[5..][1..] == [];
    assert LeValue(bs[5..]) == bs[5] as int;
    assert LeValue(bs[4..]) == bs[4] as int + 256 * (bs[5] as int);
    assert LeValue(bs[3..]) == bs[3] as int + 256 * LeValue(bs[4..]);
    assert LeValue(bs[2..]) == bs[2] as int + 256 * LeValue(bs[3..]);
    assert LeValue(bs[1..]) == bs[1] as int + 256 * LeValue(bs[2..]);
  }

  /** A motor's 0x92 reply for `angle`: bytes 1-6 hold its 48-bit pattern. */
  function MultiTurnReply(angle: int, last: Byte): (buf: seq<Byte>)
    requires -0x8000_0000_0000 <= angle < 0x8000_0000_0000
    ensures |buf| == 8 && buf[0] == CmdReadMultiAngle && buf[7] == last
  {
    var u := if angle < 0 then angle + 0x1_0000_0000_0000 else angle;
    assert u < Pow256(6) by { assert Pow256(6) == 0x1_0000_0000_0000; }
    [CmdReadMultiAngle] + LeBytes(u, 6) + [last]
  }

  /** Every angle in the signed 48-bit range comes back exactly, whatever
      the unread last byte holds. */
  lemma MultiTurnRoundTrip(angle: int, last: Byte)
    requires -0x8000_0000_0000 <= angle < 0x8000_0000_0000
    ensures MultiTurnAngle(MultiTurnReply(angle, last)) == angle
  {
    var u := if angle < 0 then angle + 0x1_0000_0000_0000 else angle;
    assert Pow256(6) == 0x1_0000_0000_0000;
    var buf := MultiTurnReply(angle, last);
    assert buf[1..7] == LeBytes(u, 6);
    LeValueOfBytes(u, 6);
    LeTopByte(buf[1..7]);
  }

  /** Byte 7 of a 0x92 reply has no effect on the decoded angle. */
  lemma MultiTurnIgnoresLastByte(buf: seq<Byte>, b: Byte)
    requires |buf| == 8
    ensures MultiTurnAngle(buf[7 := b]) == MultiTurnAngle(buf)
  {
    assert buf[7 := b][1..7] == buf[1..7];
  }

  /** The fields of a 0x9A reply. */
  datatype Status1 = Status1(temperature: int, voltage: nat, current: nat, motorState: Byte, errorState: Byte)

  /** The fields of a 0x9C reply. */
  datatype Status2 = Status2(temperature: int, iq: int, speed: int, encoder: nat)

  /** Byte `i` and `i + 1` as a little-endian `uint16`. */
  function U16At(buf: seq<Byte>, i: nat): (r: nat)
    requires i + 1 < |buf|
    ensures r < 0x1_0000 && r == LeValue(buf[i..i + 2])
  {
    assert buf[i..i + 2][1..] == [buf[i + 1]];
    (buf[i] as int) + 256 * (buf[i + 1] as int)
  }

  /** A 0x9A reply: byte 1 the temperature as `int8_t`, bytes 2-3 the
      voltage and bytes 4-5 the current as little-endian `uint16_t`, then the
      motor and error state bytes. */
  function DecodeStatus1(buf: seq<Byte>): (r: Status1)
    requires |buf| == 8
    ensures -128 <= r.temperature < 128 && Unsigned(r.temperature, 1) == buf[1]
    ensures r.voltage < 0x1_0000 && r.voltage == LeValue(buf[2..4])
    ensures r.current < 0x1_0000 && r.current == LeValue(buf[4..6])
    ensures r.motorState == buf[6] && r.errorState == buf[7]
  {
    UnsignedSigned(buf[1], 1);
    Status1(Signed(buf[1], 1), U16At(buf, 2), U16At(buf, 4), buf[6], buf[7])
  }

  /** A motor's 0x9A reply. */
  function EncodeStatus1(s: Status1): (buf: seq<Byte>)
    requires -128 <= s.temperature < 128
    requires s.voltage < 0x1_0000 && s.current < 0x1_0000
    ensures |buf| == 8 && buf[0] == CmdReadStatus1
    // byte 1 reads back as the signed temperature, bytes 6 and 7 are the states
    ensures Signed(buf[1], 1) == s.temperature && buf[6] == s.motorState && buf[7] == s.errorState
    ensures LeValue(buf[2..4]) == s.voltage && LeValue(buf[4..6]) == s.current
  {
    SignedUnsigned(s.temperature, 1);
    LeValueOfBytes(s.voltage, 2);
    LeValueOfBytes(s.current, 2);
    var volt, curr := LeBytes(s.voltage, 2), LeBytes(s.current, 2);
    var buf := [CmdReadStatus1, Unsigned(s.temperature, 1)] + volt + curr + [s.motorState, s.errorState];
    assert buf[2..4] == volt && buf[4..6] == curr;
    buf
  }

  /** Every in-range 0x9A status survives a trip through its wire bytes. */
  lemma Status1RoundTrip(s: Status1)
    requires -128 <= s.temperature < 128
    requires s.voltage < 0x1_0000 && s.current < 0x1_0000
    ensures DecodeStatus1(EncodeStatus1(s)) == s
  {
    var buf := EncodeStatus1(s);
    var head := [CmdReadStatus1, Unsigned(s.temperature, 1)];
    var volt, curr := LeBytes(s.voltage, 2), LeBytes(s.current, 2);
    assert |volt| == 2 && |curr| == 2;
    assert buf == head + volt + curr + [s.motorState, s.errorState];
    assert buf[2..4] == volt;
    assert buf[4..6] == curr;
    LeValueOfBytes(s.voltage, 2);
    LeValueOfBytes(s.current, 2);
    SignedUnsigned(s.temperature, 1);
  }

  function DecodeStatus2(buf: seq<Byte>): (r: Status2)
    requires |buf| == 8
    ensures -128 <= r.temperature < 128
    ensures -0x8000 <= r.iq < 0x8000 && -0x8000 <= r.speed < 0x8000
    ensures r.encoder < 0x1_0000
    // temperature is byte 1 as a signed byte; iq, speed and encoder are the
    // little-endian 16-bit values of bytes 2-3, 4-5 and 6-7, the first two signed
    ensures Unsigned(r.temperature, 1) == buf[1]
    ensures Unsigned(r.iq, 2) == LeValue(buf[2..4]) && Unsigned(r.speed, 2) == LeValue(buf[4..6])
    ensures r.encoder == LeValue(buf[6..8])
  {
    UnsignedSigned(buf[1], 1);
    UnsignedSigned(U16At(buf, 2), 2);
    UnsignedSigned(U16At(buf, 4), 2);
    Status2(Signed(buf[1], 1), Signed(U16At(buf, 2), 2), Signed(U16At(buf, 4), 2), U16At(buf, 6))
  }

  /** A motor's 0x9C reply. */
  function EncodeStatus2(s: Status2): (buf: seq<Byte>)
    requires -128 <= s.temperature < 128
    requires -0x8000 <= s.iq < 0x8000 && -0x8000 <= s.speed < 0x8000
    requires s.encoder < 0x1_0000
    ensures |buf| == 8 && buf[0] == CmdReadStatus2
    // byte 1 reads back as the signed temperature; bytes 2-3, 4-5 and 6-7
    // hold iq, speed (two's complement) and the encoder, little-endian
    ensures Signed(buf[1], 1) == s.temperature
    ensures LeValue(buf[2..4]) == Unsigned(s.iq, 2) && LeValue(buf[4..6]) == Unsigned(s.speed, 2)
    ensures LeValue(buf[6..8]) == s.encoder
  {
    SignedUnsigned(s.temperature, 1);
    var iq, speed, enc := LeBytes(Unsigned(s.iq, 2), 2), LeBytes(Unsigned(s.speed, 2), 2), LeBytes(s.encoder, 2);
    LeValueOfBytes(Unsigned(s.iq, 2), 2);
    LeValueOfBytes(Unsigned(s.speed, 2), 2);
    LeValueOfBytes(s.encoder, 2);
    var buf := [CmdReadStatus2, Unsigned(s.temperature, 1)] + iq + speed + enc;
    assert buf[2..4] == iq && buf[4..6] == speed && buf[6..8] == enc;
    buf
  }

  /** Every in-range 0x9C status survives a trip through its wire bytes. */
  lemma Status2RoundTrip(s: Status2)
    requires -128 <= s.temperature < 128
    requires -0x8000 <= s.iq < 0x8000 && -0x8000 <= s.speed < 0x8000
    requires s.encoder < 0x1_0000
    ensures DecodeStatus2(EncodeStatus2(s)) == s
  {
    var buf := EncodeStatus2(s);
    var head := [CmdReadStatus2, Unsigned(s.temperature, 1)];
    var iq, speed, enc := LeBytes(Unsigned(s.iq, 2), 2), LeBytes(Unsigned(s.speed, 2), 2), LeBytes(s.encoder, 2);
    assert |iq| == 2 && |speed| == 2 && |enc| == 2;
    assert buf == head + iq + speed + enc;
    assert buf[2..4] == iq;
    assert buf[4..6] == speed;
    assert buf[6..8] == enc;
    LeValueOfBytes(Unsigned(s.iq, 2), 2);
    LeValueOfBytes(Unsigned(s.speed, 2), 2);
    LeValueOfBytes(s.encoder, 2);
    SignedUnsigned(s.temperature, 1);
    SignedUnsigned(s.iq, 2);
    SignedUnsigned(s.speed, 2);
  }

  // ------------------------------------------------------------- dispatch

  /** What `handleCanMessage` keeps per motor (the angle in degrees, a
      floating-point conversion, is not part of this model). */
  datatype MotorStatus = MotorStatus(
    multiTurnAngle: int,
    temperature: int,
    motorState: Byte,
    errorState: Byte,
    enabled: bool,
    speed: int,
    iq: int,
    lastUpdateMs: Clock.U32)

  datatype Reply = AngleReply(angle: int) | Status1Reply(s1: Status1) | Status2Reply(s2: Status2)

  /** A motor reply this firmware acts on: id in [0x140, 0x140 + 33), motor
      1 (hip) or 2 (ankle), command 0x92, 0x9A or 0x9C. */
  function Route(f: Frame): (r: Option<(nat, Reply)>)
    requires WellFormed(f)
    ensures r.Some? <==>
      && BaseId <= f.id < BaseId + ReplyIdSpan
      && (f.id - BaseId == HipMotorId || f.id - BaseId == AnkleMotorId)
      && f.buf[0] in {CmdReadMultiAngle, CmdReadStatus1, CmdReadStatus2}
    ensures r.Some? ==> r.value.0 == f.id - BaseId
    ensures r.Some? && f.buf[0] == CmdReadMultiAngle ==> r.value.1 == AngleReply(MultiTurnAngle(f.buf))
    ensures r.Some? && f.buf[0] == CmdReadStatus1 ==> r.value.1 == Status1Reply(DecodeStatus1(f.buf))
    ensures r.Some? && f.buf[0] == CmdReadStatus2 ==> r.value.1 == Status2Reply(DecodeStatus2(f.buf))
  {
    if !(BaseId <= f.id < BaseId + ReplyIdSpan) then None
    else
      var motorId := f.id - BaseId;
      if motorId != HipMotorId && motorId != AnkleMotorId then None
      else
        var cmd := f.buf[0];
        if cmd == CmdReadMultiAngle then Some((motorId, AngleReply(MultiTurnAngle(f.buf))))
        else if cmd == CmdReadStatus1 then Some((motorId, Status1Reply(DecodeStatus1(f.buf))))
        else if cmd == CmdReadStatus2 then Some((motorId, Status2Reply(DecodeStatus2(f.buf))))
        else None
  }

  /** The fields a reply updates; a 0x9A reply does not refresh the update
      time, the other two do. */
  function ApplyReply(s: MotorStatus, reply: Reply, now: Clock.U32): (r: MotorStatus)
    ensures reply.AngleReply? ==> r == s.(multiTurnAngle := reply.angle, lastUpdateMs := now)
    ensures reply.Status1Reply? ==>
      r == s.(temperature := reply.s1.temperature, motorState := reply.s1.motorState,
              errorState := reply.s1.errorState, enabled := reply.s1.motorState == 0)
    ensures reply.Status2Reply? ==>
      r == s.(temperature := reply.s2.temperature, speed := reply.s2.speed, iq := reply.s2.iq, lastUpdateMs := now)
  {
    match reply
    case AngleReply(a) => s.(multiTurnAngle := a, lastUpdateMs := now)
    case Status1Reply(st) =>
      s.(temperature := st.temperature, motorState := st.motorState,
         errorState := st.errorState, enabled := st.motorState == 0)
    case Status2Reply(st) =>
      s.(temperature := st.temperature, speed := st.speed, iq := st.iq, lastUpdateMs := now)
  }

  datatype Motors = Motors(hip: MotorStatus, ankle: MotorStatus)

  /** `handleCanMessage`: a routed reply updates the addressed motor only;
      any other frame changes nothing. */
  function HandleCanMessage(m: Motors, f: Frame, now: Clock.U32): (r: Motors)
    requires WellFormed(f)
    ensures Route(f).None? ==> r == m
    ensures Route(f).Some? && Route(f).value.0 == HipMotorId ==>
      r == Motors(ApplyReply(m.hip, Route(f).value.1, now), m.ankle)
    ensures Route(f).Some? && Route(f).value.0 == AnkleMotorId ==>
      r == Motors(m.hip, ApplyReply(m.ankle, Route(f).value.1, now))
  {
    match Route(f)
    case None => m
    case Some((id, reply)) =>
      if id == HipMotorId then m.(hip := ApplyReply(m.hip, reply, now))
      else m.(ankle := ApplyReply(m.ankle, reply, now))
  }

  /** A motor's 0x9C reply sets exactly the current, speed and temperature
      it reported. */
  lemma Status2ReplyUpdatesAnkle(m: Motors, s: Status2, now: Clock.U32)
    requires -128 <= s.temperature < 128
    requires -0x8000 <= s.iq < 0x8000 && -0x8000 <= s.speed < 0x8000
    requires s.encoder < 0x1_0000
    ensures var r := HandleCanMessage(m, Frame(BaseId + AnkleMotorId, 8, EncodeStatus2(s)), now);
      && r.hip == m.hip
      && r.ankle.iq == s.iq && r.ankle.speed == s.speed && r.ankle.temperature == s.temperature
      && r.ankle.lastUpdateMs == now
  {
    Status2RoundTrip(s);
  }
}
