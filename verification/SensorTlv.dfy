/** The type-length-value fields of a sensor telegram: the driver's decoding loop, the grammar it
implements, and an encoder it undoes. */
module SensorTlv {
  import opened Bytes

  type uint16 = v: int | 0 <= v < 0x1_0000
  type int16 = v: int | -0x8000 <= v < 0x8000

  const TEMPERATURE := 0x00
  const BATTERY := 0x01
  const ENERGY_LEVEL := 0x02
  const LIGHT_SOLAR_CELL := 0x04
  const LIGHT_SENSOR := 0x05
  const HUMIDITY := 0x06
  const ACCELERATION := 0x0A
  const OCCUPANCY := 0x20
  const MAGNET_CONTACT := 0x23
  const OPTIONAL_DATA := 0x3C
  const COMMISSIONING := 0x3E
  const COMMISSIONING_BLOCK := 22

  datatype SensorData = SensorData(
    occupancy: Option<bool>,
    lightSensor: Option<uint16>,
    batteryVoltage: Option<uint16>,
    lightSolarCell: Option<uint16>,
    energyLevel: Option<byte>,
    temperature: Option<int16>,
    humidity: Option<byte>,
    contact: Option<bool>,
    accelStatus: Option<byte>,
    accelX: Option<int16>,
    accelY: Option<int16>,
    accelZ: Option<int16>)

  const NOTHING := SensorData(None, None, None, None, None, None, None, None, None, None, None, None)

  // ------------------------------------------------------------------ The loop

  /** The byte length that size bits 0, 1 and 2 stand for. */
  function ValueLength(size: nat): (n: nat)
    requires size < 3
  {
    if size == 0 then 1 else if size == 1 then 2 else 4
  }

  /** The conversion of an unsigned 16-bit value to a signed one: the only one congruent to it. */
  function ToInt16(v: nat): (i: int16)
    requires v < 0x1_0000
    ensures (v - i as int) % 0x1_0000 == 0
  {
    if v < 0x8000 then v else v - 0x1_0000
  }

  /** One fixed-length field of `n` bytes: the casts and scalings of the driver's switch statement. */
  function Assign(kind: nat, n: nat, value: word, d: SensorData): SensorData {
    if kind == TEMPERATURE then d.(temperature := Some(ToInt16(value % 0x1_0000)))
    else if kind == BATTERY then d.(batteryVoltage := Some(value / 2 % 0x1_0000))
    else if kind == ENERGY_LEVEL then d.(energyLevel := Some(value / 2 % 0x100))
    else if kind == LIGHT_SOLAR_CELL then d.(lightSolarCell := Some(value % 0x1_0000))
    else if kind == LIGHT_SENSOR then d.(lightSensor := Some(value % 0x1_0000))
    else if kind == HUMIDITY then d.(humidity := Some(value % 0x100 / 2))
    else if kind == ACCELERATION && n == 4 then
      d.(accelStatus := Some(value / 0x4000_0000),
         accelX := Some(value / 0x10_0000 % 0x400 - 512),
         accelY := Some(value / 0x400 % 0x400 - 512),
         accelZ := Some(value % 0x400 - 512))
    else if kind == OCCUPANCY then d.(occupancy := Some(value == 2))
    else if kind == MAGNET_CONTACT then d.(contact := Some(value % 0x100 == 2))
    else d
  }

  lemma FourByteValue(bs: seq<byte>)
    requires |bs| <= 4
    ensures FromLE(bs) < 0x1_0000_0000
  {
    FromLEBound(bs);
    assert Pow256(4) == 256 * (256 * (256 * (256 * Pow256(0))));
    assert Pow256(4) == 256 * Pow256(3) && Pow256(3) == 256 * Pow256(2);
    assert Pow256(2) == 256 * Pow256(1) && Pow256(1) == 256 * Pow256(0);
  }

  function ValueOf(bs: seq<byte>): word
    requires |bs| <= 4
  {
    FourByteValue(bs);
    FromLE(bs)
  }

  /** Decoding the remaining bytes `bs` into `d`. */
  function Decode(bs: seq<byte>, d: SensorData): SensorData
    decreases |bs|
  {
    if bs == [] then d
    else
      var kind, size := bs[0] % 64, bs[0] / 64;
      if kind == COMMISSIONING then
        if 1 + COMMISSIONING_BLOCK <= |bs| then Decode(bs[1 + COMMISSIONING_BLOCK..], d) else d
      else if size == 3 || kind == OPTIONAL_DATA then
        if |bs| < 2 || bs[1] > |bs| - 2 then d else Decode(bs[2 + bs[1]..], d)
      else
        var n := ValueLength(size);
        if 1 + n > |bs| then d else Decode(bs[1 + n..], Assign(kind, n, ValueOf(bs[1..1 + n]), d))
  }

  /** Assembling a little-endian value byte by byte. Every shift amount is below the word's width. */
  method AssembleValue(bytes: seq<byte>, j: nat, n: nat) returns (value: word)
    requires n <= 4 && j + n <= |bytes|
    ensures value == ValueOf(bytes[j..j + n])
  {
    value := 0;
    var b := 0;
    while b < n
      invariant 0 <= b <= n
      invariant value == ValueOf(bytes[j..j + b])
    {
      assert 8 * b < 32;
      assert bytes[j..j + b + 1] == bytes[j..j + b] + [bytes[j + b]];
      FromLESnoc(bytes[j..j + b], bytes[j + b]);
      FourByteValue(bytes[j..j + b + 1]);
      value := value + bytes[j + b] * Pow256(b);
      b := b + 1;
    }
  }

  method DecodeSensorData(bytes: seq<byte>) returns (d: SensorData)
    ensures d == Decode(bytes, NOTHING)
  {
    d := NOTHING;
    var j := 0;
    while j < |bytes|
      invariant 0 <= j <= |bytes|
      invariant Decode(bytes, NOTHING) == Decode(bytes[j..], d)
      decreases |bytes| - j
    {
      ghost var rest := bytes[j..];
      var header := bytes[j];
      j := j + 1;
      var kind, size := header % 64, header / 64;
      if kind == COMMISSIONING {
        j := if j + COMMISSIONING_BLOCK <= |bytes| then j + COMMISSIONING_BLOCK else |bytes|;
        assert |rest| >= 1 + COMMISSIONING_BLOCK ==> rest[1 + COMMISSIONING_BLOCK..] == bytes[j..];
        continue;
      }
      if size == 3 || kind == OPTIONAL_DATA {
        if j >= |bytes| {
          break;
        }
        var vlen := bytes[j] as int;
        j := j + 1;
        if vlen > |bytes| - j {
          break;
        }
        j := j + vlen;
        assert rest[2 + vlen..] == bytes[j..];
        continue;
      }
      var n := ValueLength(size);
      if j + n > |bytes| {
        break;
      }
      var value := AssembleValue(bytes, j, n);
      assert rest[1..1 + n] == bytes[j..j + n];
      j := j + n;
      assert rest[1 + n..] == bytes[j..];
      d := Assign(kind, n, value, d);
    }
  }

  // ------------------------------------------------------------------ The grammar

  datatype Tlv =
    | Fixed(kind: nat, size: nat, value: nat)
    | Variable(kind: nat, size: nat, payload: seq<byte>)
    | Embedded(size: nat, block: seq<byte>)
  {
    predicate Valid() {
      match this
      case Fixed(kind, size, value) =>
        kind < 64 && kind != OPTIONAL_DATA && kind != COMMISSIONING && size < 3 && value < Pow256(ValueLength(size))
      case Variable(kind, size, payload) =>
        kind < 64 && kind != COMMISSIONING && size < 4 && (size == 3 || kind == OPTIONAL_DATA) && |payload| < 256
      case Embedded(size, block) =>
        size < 4 && |block| == COMMISSIONING_BLOCK
    }

    function Write(): (s: seq<byte>)
      requires Valid()
      ensures |s| >= 1
    {
      match this
      case Fixed(kind, size, value) => [64 * size + kind] + ToLE(value, ValueLength(size))
      case Variable(kind, size, payload) => [64 * size + kind, |payload|] + payload
      case Embedded(size, block) => [64 * size + COMMISSIONING] + block
    }

    /** What the field means for the reading; only fixed-length fields carry a value. */
    function Effect(d: SensorData): SensorData {
      if Fixed? && size < 3 && value < 0x1_0000_0000 then Assign(kind, ValueLength(size), value, d) else d
    }
  }

  predicate Valid(ts: seq<Tlv>) {
    forall t <- ts :: t.Valid()
  }

  function Write(ts: seq<Tlv>): seq<byte>
    requires Valid(ts)
  {
    if ts == [] then [] else ts[0].Write() + Write(ts[1..])
  }

  /** The reading after the fields `ts`, in order. */
  function Fold(ts: seq<Tlv>, d: SensorData): SensorData {
    if ts == [] then d else Fold(ts[1..], ts[0].Effect(d))
  }

  /** A header byte with fewer bytes after it than it announces, or nothing. */
  predicate Incomplete(tail: seq<byte>) {
    tail == [] ||
    var kind, size := tail[0] % 64, tail[0] / 64;
    if kind == COMMISSIONING then |tail| < 1 + COMMISSIONING_BLOCK
    else if size == 3 || kind == OPTIONAL_DATA then |tail| < 2 || |tail| < 2 + tail[1] as int
    else |tail| < 1 + ValueLength(size)
  }

  // ------------------------------------------------------------------ The loop against the grammar

  /** The field a complete first field of `bs` is. */
  function Head(bs: seq<byte>): (t: Tlv)
    requires !Incomplete(bs)
    ensures t.Valid() && t.Write() <= bs
  {
    var kind, size := bs[0] % 64, bs[0] / 64;
    if kind == COMMISSIONING then Embedded(size, bs[1..1 + COMMISSIONING_BLOCK])
    else if size == 3 || kind == OPTIONAL_DATA then
      var t := Variable(kind, size, bs[2..2 + bs[1]]);
      assert t.Write() == bs[..2 + bs[1]];
      t
    else
      var v := bs[1..1 + ValueLength(size)];
      FromLEBound(v);
      ToFromLE(v);
      Fixed(kind, size, FromLE(v))
  }

  /** Every byte string is a sequence of complete fields and an incomplete one. */
  function Parse(bs: seq<byte>): (p: (seq<Tlv>, seq<byte>))
    ensures Valid(p.0) && Incomplete(p.1) && bs == Write(p.0) + p.1
    decreases |bs|
  {
    if Incomplete(bs) then ([], bs)
    else
      var t := Head(bs);
      var (ts, tail) := Parse(bs[|t.Write()|..]);
      WriteFirst(t, ts, tail, bs);
      ([t] + ts, tail)
  }

  lemma WriteFirst(t: Tlv, ts: seq<Tlv>, tail: seq<byte>, bs: seq<byte>)
    requires t.Valid() && Valid(ts) && t.Write() <= bs
    requires bs[|t.Write()|..] == Write(ts) + tail
    ensures Valid([t] + ts) && bs == Write([t] + ts) + tail
  {
    assert ([t] + ts)[1..] == ts;
    assert bs == t.Write() + bs[|t.Write()|..];
    assert t.Write() + Write(ts) + tail == t.Write() + (Write(ts) + tail);
  }

  /** One field of the loop. */
  lemma OneField(t: Tlv, rest: seq<byte>, d: SensorData)
    requires t.Valid()
    ensures Decode(t.Write() + rest, d) == Decode(rest, t.Effect(d))
  {
    var bs := t.Write() + rest;
    assert bs[|t.Write()|..] == rest;
    match t
    case Fixed(kind, size, value) =>
      var n := ValueLength(size);
      assert bs[0] % 64 == kind && bs[0] / 64 == size;
      assert bs[1..1 + n] == ToLE(value, n);
      FromToLE(value, n);
      FourByteValue(bs[1..1 + n]);
    case Variable(kind, size, payload) =>
      assert bs[0] % 64 == kind && bs[0] / 64 == size;
    case Embedded(size, block) =>
      assert bs[0] % 64 == COMMISSIONING;
  }

  /** The loop reads exactly the complete fields; with `Parse`, this fixes its result on every byte string.
  In particular an incomplete ending changes no field. */
  lemma {:induction false} DecodeIsFold(ts: seq<Tlv>, tail: seq<byte>, d: SensorData)
    requires Valid(ts) && Incomplete(tail)
    ensures Decode(Write(ts) + tail, d) == Fold(ts, d)
  {
    if ts == [] {
      assert Write(ts) + tail == tail;
    } else {
      assert Write(ts) + tail == ts[0].Write() + (Write(ts[1..]) + tail);
      OneField(ts[0], Write(ts[1..]) + tail, d);
      DecodeIsFold(ts[1..], tail, ts[0].Effect(d));
    }
  }

  function Later<T>(a: Option<T>, b: Option<T>): Option<T> {
    if b.Some? then b else a
  }

  /** `d` overridden, field by field, by `e`. */
  function Override(d: SensorData, e: SensorData): SensorData {
    SensorData(
      Later(d.occupancy, e.occupancy), Later(d.lightSensor, e.lightSensor),
      Later(d.batteryVoltage, e.batteryVoltage), Later(d.lightSolarCell, e.lightSolarCell),
      Later(d.energyLevel, e.energyLevel), Later(d.temperature, e.temperature),
      Later(d.humidity, e.humidity), Later(d.contact, e.contact),
      Later(d.accelStatus, e.accelStatus), Later(d.accelX, e.accelX),
      Later(d.accelY, e.accelY), Later(d.accelZ, e.accelZ))
  }

  lemma AssignOverrides(kind: nat, n: nat, v: word, d: SensorData)
    ensures Assign(kind, n, v, d) == Override(d, Assign(kind, n, v, NOTHING))
  {
    if kind == ACCELERATION {
    } else if kind in {TEMPERATURE, BATTERY, ENERGY_LEVEL, LIGHT_SOLAR_CELL} {
    } else {
    }
  }

  lemma EffectOverrides(t: Tlv, d: SensorData)
    ensures t.Effect(d) == Override(d, t.Effect(NOTHING))
  {
    hide Assign, Override;
    if t.Fixed? && t.size < 3 && t.value < 0x1_0000_0000 {
      AssignOverrides(t.kind, ValueLength(t.size), t.value, d);
    } else {
      OverrideNothing(d);
    }
  }

  lemma OverrideNothing(d: SensorData)
    ensures Override(d, NOTHING) == d
  {
  }

  lemma OverrideAssociative(d: SensorData, e: SensorData, f: SensorData)
    ensures Override(Override(d, e), f) == Override(d, Override(e, f))
  {
  }

  lemma {:induction false} FoldOverrides(ts: seq<Tlv>, d: SensorData)
    ensures Fold(ts, d) == Override(d, Fold(ts, NOTHING))
  {
    if ts != [] {
      var e := ts[0].Effect(NOTHING);
      EffectOverrides(ts[0], d);
      FoldOverrides(ts[1..], ts[0].Effect(d));
      FoldOverrides(ts[1..], e);
      OverrideAssociative(d, e, Fold(ts[1..], NOTHING));
    }
  }

  lemma {:induction false} FoldAppend(xs: seq<Tlv>, ys: seq<Tlv>, d: SensorData)
    ensures Fold(xs + ys, d) == Fold(ys, Fold(xs, d))
  {
    if xs == [] {
      assert xs + ys == ys;
    } else {
      assert (xs + ys)[1..] == xs[1..] + ys;
      FoldAppend(xs[1..], ys, xs[0].Effect(d));
    }
  }

  lemma {:induction false} WriteAppend(xs: seq<Tlv>, ys: seq<Tlv>)
    requires Valid(xs) && Valid(ys)
    ensures Write(xs + ys) == Write(xs) + Write(ys)
  {
    if xs == [] {
      assert xs + ys == ys;
    } else {
      assert (xs + ys)[1..] == xs[1..] + ys;
      WriteAppend(xs[1..], ys);
    }
  }

  lemma FoldConcatenation(xs: seq<Tlv>, ys: seq<Tlv>)
    ensures Fold(xs + ys, NOTHING) == Override(Fold(xs, NOTHING), Fold(ys, NOTHING))
  {
    FoldAppend(xs, ys, NOTHING);
    FoldOverrides(ys, Fold(xs, NOTHING));
  }

  lemma DecodeComplete(xs: seq<Tlv>)
    requires Valid(xs)
    ensures Decode(Write(xs), NOTHING) == Fold(xs, NOTHING)
  {
    assert Write(xs) + [] == Write(xs);
    DecodeIsFold(xs, [], NOTHING);
  }

  lemma ParseAfter(xs: seq<Tlv>, ys: seq<Tlv>, tail: seq<byte>, bs: seq<byte>)
    requires Valid(xs) && Valid(ys) && bs == Write(ys) + tail
    ensures Valid(xs + ys) && Write(xs) + bs == Write(xs + ys) + tail
  {
    WriteAppend(xs, ys);
    assert Write(xs) + (Write(ys) + tail) == Write(xs) + Write(ys) + tail;
  }

  /** Decoding a concatenation: the later bytes override the earlier complete fields. */
  lemma DecodeConcatenation(xs: seq<Tlv>, bs: seq<byte>)
    requires Valid(xs)
    ensures Decode(Write(xs) + bs, NOTHING) == Override(Decode(Write(xs), NOTHING), Decode(bs, NOTHING))
  {
    var p := Parse(bs);
    ParseAfter(xs, p.0, p.1, bs);
    DecodeIsFold(xs + p.0, p.1, NOTHING);
    DecodeIsFold(p.0, p.1, NOTHING);
    DecodeComplete(xs);
    FoldConcatenation(xs, p.0);
  }

  // ------------------------------------------------------------------ Round trip

  /** Readings a sensor can express: humidity is half a byte value, and the acceleration fields come together. */
  predicate InRange(d: SensorData) {
    && (d.humidity.Some? ==> d.humidity.value < 0x80)
    && (d.accelStatus.Some? <==> d.accelX.Some?)
    && (d.accelX.Some? <==> d.accelY.Some?)
    && (d.accelY.Some? <==> d.accelZ.Some?)
    && (d.accelStatus.Some? ==>
          && d.accelStatus.value < 4
          && -512 <= d.accelX.value < 512
          && -512 <= d.accelY.value < 512
          && -512 <= d.accelZ.value < 512)
  }

  function FromInt16(v: int16): (u: uint16)
    ensures ToInt16(u) == v
  {
    if v < 0 then v + 0x1_0000 else v
  }

  /** Two status bits and three axes of ten bits in one word. */
  function PackAcceleration(d: SensorData): (v: word)
    requires InRange(d) && d.accelStatus.Some?
  {
    d.accelStatus.value as int * 0x4000_0000 + (d.accelX.value + 512) * 0x10_0000
    + (d.accelY.value + 512) * 0x400 + (d.accelZ.value + 512)
  }

  /** The kinds of field that carry a quantity. */
  const KINDS: seq<nat> := [TEMPERATURE, BATTERY, ENERGY_LEVEL, LIGHT_SOLAR_CELL, LIGHT_SENSOR, HUMIDITY,
                            ACCELERATION, OCCUPANCY, MAGNET_CONTACT]

  /** The value that a field of the given kind must hold to express `d`. */
  function Raw(kind: nat, d: SensorData): (v: Option<word>)
    requires InRange(d)
  {
    if kind == TEMPERATURE && d.temperature.Some? then Some(FromInt16(d.temperature.value))
    else if kind == BATTERY && d.batteryVoltage.Some? then Some(2 * d.batteryVoltage.value as int)
    else if kind == ENERGY_LEVEL && d.energyLevel.Some? then Some(2 * d.energyLevel.value as int)
    else if kind == LIGHT_SOLAR_CELL && d.lightSolarCell.Some? then Some(d.lightSolarCell.value)
    else if kind == LIGHT_SENSOR && d.lightSensor.Some? then Some(d.lightSensor.value)
    else if kind == HUMIDITY && d.humidity.Some? then Some(2 * d.humidity.value as int)
    else if kind == ACCELERATION && d.accelStatus.Some? then Some(PackAcceleration(d))
    else if kind == OCCUPANCY && d.occupancy.Some? then Some(if d.occupancy.value then 2 else 1)
    else if kind == MAGNET_CONTACT && d.contact.Some? then Some(if d.contact.value then 2 else 1)
    else None
  }

  /** The field carries a quantity; all others are skipped. */
  predicate Carries(t: Tlv) {
    t.Fixed? && t.kind in KINDS && (t.kind == ACCELERATION ==> t.size == 2)
  }

  predicate HasKind(ts: seq<Tlv>, kind: nat) {
    exists t <- ts :: Carries(t) && t.kind == kind
  }

  /** The fields express `d`: each quantity of it has a field, and no field says otherwise. Their order and
  width are free, and fields that carry no quantity may stand anywhere. */
  predicate Encodes(ts: seq<Tlv>, d: SensorData)
    requires InRange(d)
  {
    && (forall k <- KINDS | Raw(k, d).Some? :: HasKind(ts, k))
    && (forall t <- ts | Carries(t) :: Raw(t.kind, d) == Some(t.value))
  }

  lemma SplitTenBits(q: nat, r: nat)
    requires r < 1024
    ensures (1024 * q + r) / 1024 == q && (1024 * q + r) % 1024 == r
  {
  }

  lemma UnpackAcceleration(d: SensorData)
    requires InRange(d) && d.accelStatus.Some?
    ensures var v := PackAcceleration(d);
            && v / 0x4000_0000 == d.accelStatus.value
            && v / 0x10_0000 % 0x400 - 512 == d.accelX.value
            && v / 0x400 % 0x400 - 512 == d.accelY.value
            && v % 0x400 - 512 == d.accelZ.value
  {
    var st: nat := d.accelStatus.value;
    var x, y, z := d.accelX.value + 512, d.accelY.value + 512, d.accelZ.value + 512;
    var sx: nat := 1024 * st + x;
    var sxy: nat := 1024 * sx + y;
    SplitTenBits(st, x);
    SplitTenBits(sx, y);
    SplitTenBits(sxy, z);
    var v := PackAcceleration(d);
    assert v == 1024 * sxy + z;
    assert v / 0x10_0000 == v / 0x400 / 0x400;
    assert v / 0x4000_0000 == v / 0x400 / 0x400 / 0x400;
  }

  lemma AccelerationIsRight(d: SensorData)
    requires InRange(d) && d.accelStatus.Some?
    ensures Assign(ACCELERATION, 4, PackAcceleration(d), d) == d
  {
    UnpackAcceleration(d);
  }

  lemma PlainIsRight(t: Tlv, d: SensorData)
    requires InRange(d) && Carries(t) && t.kind != ACCELERATION && Raw(t.kind, d) == Some(t.value)
    ensures t.Effect(d) == d
  {
  }

  lemma FieldIsRight(t: Tlv, d: SensorData)
    requires InRange(d) && (Carries(t) ==> Raw(t.kind, d) == Some(t.value))
    ensures t.Effect(d) == d
  {
    if !Carries(t) {
    } else if t.kind == ACCELERATION {
      AccelerationIsRight(d);
    } else {
      PlainIsRight(t, d);
    }
  }

  lemma {:induction false} FieldsAgree(ts: seq<Tlv>, d: SensorData)
    requires InRange(d) && forall t <- ts | Carries(t) :: Raw(t.kind, d) == Some(t.value)
    ensures Fold(ts, d) == d
  {
    if ts != [] {
      FieldIsRight(ts[0], d);
      FieldsAgree(ts[1..], d);
    }
  }

  /** The quantity that fields of the given kind carry is present. */
  predicate Has(d: SensorData, kind: nat) {
    if kind == TEMPERATURE then d.temperature.Some?
    else if kind == BATTERY then d.batteryVoltage.Some?
    else if kind == ENERGY_LEVEL then d.energyLevel.Some?
    else if kind == LIGHT_SOLAR_CELL then d.lightSolarCell.Some?
    else if kind == LIGHT_SENSOR then d.lightSensor.Some?
    else if kind == HUMIDITY then d.humidity.Some?
    else if kind == ACCELERATION then d.accelStatus.Some? && d.accelX.Some? && d.accelY.Some? && d.accelZ.Some?
    else if kind == OCCUPANCY then d.occupancy.Some?
    else if kind == MAGNET_CONTACT then d.contact.Some?
    else false
  }

  lemma RawIsPresent(d: SensorData, kind: nat)
    requires InRange(d)
    ensures Raw(kind, d).Some? <==> Has(d, kind)
  {
  }

  lemma CarrierHas(t: Tlv)
    requires t.Valid() && Carries(t)
    ensures Has(t.Effect(NOTHING), t.kind)
  {
    assert Pow256(4) == 256 * Pow256(3) && Pow256(3) == 256 * Pow256(2);
    assert Pow256(2) == 256 * Pow256(1) && Pow256(1) == 256 * Pow256(0);
  }

  lemma OverrideHas(d: SensorData, e: SensorData, kind: nat)
    requires Has(d, kind) || Has(e, kind)
    ensures Has(Override(d, e), kind)
  {
  }

  lemma {:induction false} FieldPresent(ts: seq<Tlv>, t: Tlv)
    requires Valid(ts) && t in ts && Carries(t)
    ensures Has(Fold(ts, NOTHING), t.kind)
  {
    FoldOverrides(ts[1..], ts[0].Effect(NOTHING));
    if t == ts[0] {
      CarrierHas(t);
    } else {
      FieldPresent(ts[1..], t);
    }
    OverrideHas(ts[0].Effect(NOTHING), Fold(ts[1..], NOTHING), t.kind);
  }

  /** A reading that has every quantity of `d` and agrees with `d` where it has one is `d`. */
  lemma SameReading(d: SensorData, e: SensorData)
    requires InRange(d) && Override(d, e) == d
    requires forall k <- KINDS | Has(d, k) :: Has(e, k)
    ensures e == d
  {
    assert Has(d, TEMPERATURE) ==> Has(e, TEMPERATURE);
    assert Has(d, BATTERY) ==> Has(e, BATTERY);
    assert Has(d, ENERGY_LEVEL) ==> Has(e, ENERGY_LEVEL);
    assert Has(d, LIGHT_SOLAR_CELL) ==> Has(e, LIGHT_SOLAR_CELL);
    assert Has(d, LIGHT_SENSOR) ==> Has(e, LIGHT_SENSOR);
    assert Has(d, HUMIDITY) ==> Has(e, HUMIDITY);
    assert Has(d, ACCELERATION) ==> Has(e, ACCELERATION);
    assert Has(d, OCCUPANCY) ==> Has(e, OCCUPANCY);
    assert Has(d, MAGNET_CONTACT) ==> Has(e, MAGNET_CONTACT);
  }

  /** Decoding undoes encoding: any fields that express the reading, in any order and width, with repetitions,
  and interleaved with any fields that carry no quantity, and any incomplete ending, decode to it. */
  lemma DecodeUndoesEncode(ts: seq<Tlv>, tail: seq<byte>, d: SensorData)
    requires InRange(d) && Valid(ts) && Incomplete(tail) && Encodes(ts, d)
    ensures Decode(Write(ts) + tail, NOTHING) == d
  {
    hide Raw, Has, InRange, Override;
    var e := Fold(ts, NOTHING);
    DecodeIsFold(ts, tail, NOTHING);
    FieldsAgree(ts, d);
    FoldOverrides(ts, d);
    forall k <- KINDS | Has(d, k) ensures Has(e, k) {
      RawIsPresent(d, k);
      var t :| t in ts && Carries(t) && t.kind == k;
      FieldPresent(ts, t);
    }
    SameReading(d, e);
  }

  /** The four-byte fields that express the quantities of the given kinds. */
  function Encode(kinds: seq<nat>, d: SensorData): seq<Tlv>
    requires InRange(d)
  {
    if kinds == [] then []
    else
      var v := Raw(kinds[0], d);
      (if v.Some? then [Fixed(kinds[0], 2, v.value)] else []) + Encode(kinds[1..], d)
  }

  lemma {:induction false} KindsEncoded(kinds: seq<nat>, d: SensorData)
    requires InRange(d) && forall k <- kinds :: k in KINDS
    ensures var ts := Encode(kinds, d);
            && Valid(ts) && (forall t <- ts :: Carries(t) && Raw(t.kind, d) == Some(t.value))
            && forall k <- kinds | Raw(k, d).Some? :: HasKind(ts, k)
  {
    hide Raw, InRange;
    assert Pow256(4) == 256 * Pow256(3) && Pow256(3) == 256 * Pow256(2);
    assert Pow256(2) == 256 * Pow256(1) && Pow256(1) == 256 * Pow256(0);
    if kinds != [] {
      KindsEncoded(kinds[1..], d);
      var ts, rest := Encode(kinds, d), Encode(kinds[1..], d);
      assert forall t <- rest :: t in ts;
      forall k <- kinds | Raw(k, d).Some? ensures HasKind(ts, k) {
        if k == kinds[0] {
          assert ts[0] in ts;
        } else {
          assert HasKind(rest, k);
        }
      }
    }
  }

  /** Every in-range reading has an encoding, so decoding reaches every such reading. */
  lemma EncodingExists(d: SensorData)
    requires InRange(d)
    ensures var ts := Encode(KINDS, d);
            Valid(ts) && Encodes(ts, d) && Decode(Write(ts), NOTHING) == d
  {
    hide Raw, InRange, Decode;
    var ts := Encode(KINDS, d);
    KindsEncoded(KINDS, d);
    assert Write(ts) + [] == Write(ts);
    DecodeUndoesEncode(ts, [], d);
  }
}
