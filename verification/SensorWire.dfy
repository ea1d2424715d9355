/** The sensor fields in the wire's own terms: literal field types, header bits, lengths and value bytes. Together
the lemmas fix what the driver's decoder does with every byte string. */
module SensorWire {
  import opened Bytes
  import opened SensorTlv

  /** The value bytes `v` of a fixed-length field of type `kind` turn the reading `d` into `e`. The quantity the
  type stands for is determined by the bytes, and every other quantity is kept. */
  predicate Says(kind: nat, v: seq<byte>, d: SensorData, e: SensorData)
    requires |v| in {1, 2, 4}
  {
    var value := FromLE(v);
    match kind
    case 0x00 =>
      e == d.(temperature := e.temperature) && e.temperature.Some?
      && (value - e.temperature.value as int) % 0x1_0000 == 0
    case 0x01 =>
      e == d.(batteryVoltage := e.batteryVoltage) && e.batteryVoltage.Some?
      && (value - 2 * e.batteryVoltage.value as int) % 0x2_0000 in {0, 1}
    case 0x02 =>
      e == d.(energyLevel := e.energyLevel) && e.energyLevel.Some?
      && (value - 2 * e.energyLevel.value as int) % 0x200 in {0, 1}
    case 0x04 =>
      e == d.(lightSolarCell := e.lightSolarCell) && e.lightSolarCell.Some?
      && (value - e.lightSolarCell.value as int) % 0x1_0000 == 0
    case 0x05 =>
      e == d.(lightSensor := e.lightSensor) && e.lightSensor.Some?
      && (value - e.lightSensor.value as int) % 0x1_0000 == 0
    case 0x06 =>
      e == d.(humidity := e.humidity) && e.humidity.Some? && e.humidity.value < 128
      && v[0] as int - 2 * e.humidity.value as int in {0, 1}
    case 0x0A =>
      if |v| == 4 then
        && e == d.(accelStatus := e.accelStatus, accelX := e.accelX, accelY := e.accelY, accelZ := e.accelZ)
        && e.accelStatus.Some? && e.accelStatus.value < 4
        && e.accelX.Some? && -512 <= e.accelX.value < 512
        && e.accelY.Some? && -512 <= e.accelY.value < 512
        && e.accelZ.Some? && -512 <= e.accelZ.value < 512
        && value == e.accelStatus.value as int * 0x4000_0000 + (e.accelX.value + 512) * 0x10_0000
                    + (e.accelY.value + 512) * 0x400 + (e.accelZ.value + 512)
      else e == d
    case 0x20 =>
      e == d.(occupancy := Some(v[0] == 2 && forall k | 1 <= k < |v| :: v[k] == 0))
    case 0x23 =>
      e == d.(contact := Some(v[0] == 2))
    case _ => e == d
  }

  lemma ValueBytes(v: seq<byte>)
    requires |v| in {1, 2, 4}
    ensures FromLE(v) < 0x1_0000_0000
    ensures FromLE(v) % 256 == v[0] as int
    ensures FromLE(v) == 2 <==> v[0] == 2 && forall k | 1 <= k < |v| :: v[k] == 0
  {
    FourByteValue(v);
    assert FromLE(v) == v[0] as int + 256 * FromLE(v[1..]);
    ZeroBytes(v[1..]);
    assert forall k | 1 <= k < |v| :: v[k] == v[1..][k - 1];
    assert forall k | 0 <= k < |v[1..]| :: v[1..][k] == v[k + 1];
  }

  lemma {:induction false} ZeroBytes(v: seq<byte>)
    ensures FromLE(v) == 0 <==> forall k | 0 <= k < |v| :: v[k] == 0
  {
    if v != [] {
      ZeroBytes(v[1..]);
      assert forall k | 1 <= k < |v| :: v[k] == v[1..][k - 1];
      assert forall k | 0 <= k < |v[1..]| :: v[1..][k] == v[k + 1];
    }
  }

  lemma Halved16(value: word)
    ensures (value - 2 * (value / 2 % 0x1_0000)) % 0x2_0000 in {0, 1}
  {
    var q, r := value / 2 / 0x1_0000, value % 2;
    assert value - 2 * (value / 2 % 0x1_0000) == 0x2_0000 * q + r;
    assert (0x2_0000 * q + r) % 0x2_0000 == r;
  }

  lemma Halved8(value: word)
    ensures (value - 2 * (value / 2 % 0x100)) % 0x200 in {0, 1}
  {
    var q, r := value / 2 / 0x100, value % 2;
    assert value - 2 * (value / 2 % 0x100) == 0x200 * q + r;
    assert (0x200 * q + r) % 0x200 == r;
  }

  lemma TenBits(value: word)
    ensures value == value / 0x4000_0000 * 0x4000_0000 + value / 0x10_0000 % 0x400 * 0x10_0000
                     + value / 0x400 % 0x400 * 0x400 + value % 0x400
  {
    assert value / 0x10_0000 == value / 0x400 / 0x400;
    assert value / 0x4000_0000 == value / 0x400 / 0x400 / 0x400;
  }

  lemma AccelerationSays(v: seq<byte>, d: SensorData)
    requires |v| in {1, 2, 4}
    ensures Says(0x0A, v, d, Assign(0x0A, |v|, ValueOf(v), d))
  {
    hide FromLE;
    TenBits(ValueOf(v));
  }

  lemma HalvedSays(kind: nat, v: seq<byte>, d: SensorData)
    requires |v| in {1, 2, 4} && kind in {0x01, 0x02}
    ensures Says(kind, v, d, Assign(kind, |v|, ValueOf(v), d))
  {
    hide FromLE;
    if kind == 0x01 {
      Halved16(ValueOf(v));
    } else {
      Halved8(ValueOf(v));
    }
  }

  lemma PlainSays(kind: nat, v: seq<byte>, d: SensorData)
    requires |v| in {1, 2, 4} && kind in {0x00, 0x04, 0x05}
    ensures Says(kind, v, d, Assign(kind, |v|, ValueOf(v), d))
  {
    hide FromLE;
  }

  lemma LowByteSays(kind: nat, v: seq<byte>, d: SensorData)
    requires |v| in {1, 2, 4} && kind in {0x06, 0x20, 0x23}
    ensures Says(kind, v, d, Assign(kind, |v|, ValueOf(v), d))
  {
    ValueBytes(v);
    hide FromLE;
  }

  lemma AssignSays(kind: nat, v: seq<byte>, d: SensorData)
    requires |v| in {1, 2, 4}
    ensures Says(kind, v, d, Assign(kind, |v|, ValueOf(v), d))
  {
    if kind == 0x0A {
      AccelerationSays(v, d);
    } else if kind in {0x01, 0x02} {
      HalvedSays(kind, v, d);
    } else if kind in {0x00, 0x04, 0x05} {
      PlainSays(kind, v, d);
    } else if kind in {0x06, 0x20, 0x23} {
      LowByteSays(kind, v, d);
    }
  }

  lemma SameResidue(value: int, a: int, b: int)
    requires (value - a) % 0x1_0000 == 0 && (value - b) % 0x1_0000 == 0 && -0x1_0000 < a - b < 0x1_0000
    ensures a == b
  {
  }

  lemma SameHalf(value: int, a: int, b: int)
    ensures (value - 2 * a) % 0x2_0000 in {0, 1} && (value - 2 * b) % 0x2_0000 in {0, 1} && -0x1_0000 < a - b < 0x1_0000
            ==> a == b
    ensures (value - 2 * a) % 0x200 in {0, 1} && (value - 2 * b) % 0x200 in {0, 1} && -0x100 < a - b < 0x100
            ==> a == b
  {
  }

  lemma SplitAcceleration(status: byte, x: int16, y: int16, z: int16)
    requires status < 4 && -512 <= x < 512 && -512 <= y < 512 && -512 <= z < 512
    ensures var value := status as int * 0x4000_0000 + (x + 512) * 0x10_0000 + (y + 512) * 0x400 + (z + 512);
            && status == value / 0x4000_0000
            && x == value / 0x10_0000 % 0x400 - 512
            && y == value / 0x400 % 0x400 - 512
            && z == value % 0x400 - 512
  {
    UnpackAcceleration(NOTHING.(accelStatus := Some(status), accelX := Some(x), accelY := Some(y), accelZ := Some(z)));
  }

  lemma AccelerationDetermined(v: seq<byte>, d: SensorData, e: SensorData, f: SensorData)
    requires |v| in {1, 2, 4} && Says(0x0A, v, d, e) && Says(0x0A, v, d, f)
    ensures e == f
  {
    hide FromLE;
    if |v| == 4 {
      SplitAcceleration(e.accelStatus.value, e.accelX.value, e.accelY.value, e.accelZ.value);
      SplitAcceleration(f.accelStatus.value, f.accelX.value, f.accelY.value, f.accelZ.value);
    }
  }

  lemma HalvedDetermined(kind: nat, v: seq<byte>, d: SensorData, e: SensorData, f: SensorData)
    requires |v| in {1, 2, 4} && kind in {0x01, 0x02} && Says(kind, v, d, e) && Says(kind, v, d, f)
    ensures e == f
  {
    hide FromLE;
    if kind == 0x01 {
      SameHalf(FromLE(v), e.batteryVoltage.value, f.batteryVoltage.value);
    } else {
      SameHalf(FromLE(v), e.energyLevel.value, f.energyLevel.value);
    }
  }

  lemma PlainDetermined(kind: nat, v: seq<byte>, d: SensorData, e: SensorData, f: SensorData)
    requires |v| in {1, 2, 4} && kind in {0x00, 0x04, 0x05} && Says(kind, v, d, e) && Says(kind, v, d, f)
    ensures e == f
  {
    hide FromLE;
    if kind == 0x00 {
      SameResidue(FromLE(v), e.temperature.value, f.temperature.value);
    } else if kind == 0x04 {
      SameResidue(FromLE(v), e.lightSolarCell.value, f.lightSolarCell.value);
    } else {
      SameResidue(FromLE(v), e.lightSensor.value, f.lightSensor.value);
    }
  }

  /** What the bytes say leaves no choice. */
  lemma SaysDetermines(kind: nat, v: seq<byte>, d: SensorData, e: SensorData, f: SensorData)
    requires |v| in {1, 2, 4} && Says(kind, v, d, e) && Says(kind, v, d, f)
    ensures e == f
  {
    hide FromLE;
    if kind == 0x0A {
      AccelerationDetermined(v, d, e, f);
    } else if kind in {0x01, 0x02} {
      HalvedDetermined(kind, v, d, e, f);
    } else if kind in {0x00, 0x04, 0x05} {
      PlainDetermined(kind, v, d, e, f);
    }
  }

  /** The first byte announces more bytes than follow it, or there is none. */
  predicate Truncated(bs: seq<byte>) {
    bs == [] ||
    var kind, size := bs[0] % 64, bs[0] / 64;
    if kind == 0x3E then |bs| < 23
    else if kind == 0x3C || size == 3 then |bs| < 2 || |bs| < 2 + bs[1] as int
    else |bs| < 1 + (if size == 0 then 1 else if size == 1 then 2 else 4)
  }

  /** One round of the decoder, for every byte string: a truncated field ends it, an embedded commissioning block
  of 22 bytes and a variable-length field are skipped, and a fixed-length field says what its bytes say. */
  lemma DecodeExact(bs: seq<byte>, d: SensorData)
    ensures Truncated(bs) ==> Decode(bs, d) == d
    ensures !Truncated(bs) ==>
              var kind, size := bs[0] % 64, bs[0] / 64;
              if kind == 0x3E then Decode(bs, d) == Decode(bs[23..], d)
              else if kind == 0x3C || size == 3 then Decode(bs, d) == Decode(bs[2 + bs[1]..], d)
              else
                var n := if size == 0 then 1 else if size == 1 then 2 else 4;
                var e := Decode(bs[..1 + n], d);
                Says(kind, bs[1..1 + n], d, e) && Decode(bs, d) == Decode(bs[1 + n..], e)
  {
    if !Truncated(bs) {
      var kind, size := bs[0] % 64, bs[0] / 64;
      if kind != 0x3E && kind != 0x3C && size != 3 {
        FixedExact(bs, kind, size, d);
      }
    }
  }

  /** One fixed-length field at the start of `bs`. */
  lemma OneFixed(bs: seq<byte>, d: SensorData)
    requires !Truncated(bs) && bs != [] && bs[0] % 64 != 0x3E && bs[0] % 64 != 0x3C && bs[0] / 64 < 3
    ensures var n := ValueLength(bs[0] / 64);
            Decode(bs, d) == Decode(bs[1 + n..], Assign(bs[0] % 64, n, ValueOf(bs[1..1 + n]), d))
  {
    hide Assign, ValueOf;
  }

  lemma FixedExact(bs: seq<byte>, kind: nat, size: nat, d: SensorData)
    requires bs != [] && kind == bs[0] % 64 && size == bs[0] / 64 && kind != 0x3C && kind != 0x3E && size < 3
    requires !Truncated(bs)
    ensures var n := if size == 0 then 1 else if size == 1 then 2 else 4;
            var e := Decode(bs[..1 + n], d);
            Says(kind, bs[1..1 + n], d, e) && Decode(bs, d) == Decode(bs[1 + n..], e)
  {
    hide Assign, Says, FromLE, ValueOf, Decode;
    var n := ValueLength(size);
    var v, first := bs[1..1 + n], bs[..1 + n];
    AssignSays(kind, v, d);
    OneFixed(bs, d);
    OneFixed(first, d);
    assert first[1..1 + n] == v && first[1 + n..] == [];
    DecodeNothing(Assign(kind, n, ValueOf(v), d));
  }

  lemma DecodeNothing(d: SensorData)
    ensures Decode([], d) == d
  {
  }
}
