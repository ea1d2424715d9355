/** Encoders for the three kinds of EnOcean payload, and what the driver makes of every encoded payload. */
module Telegrams {
  import opened Bytes
  import opened DriverModel
  import AdStructures
  import SensorTlv

  // ------------------------------------------------------------------ Switch telegrams

  function StatusByte(action: ButtonAction, buttons: byte): byte
    requires buttons < 16
  {
    2 * (buttons as int) + if action == Press then 1 else 0
  }

  /** Sequence number, status, optional data, tag. */
  function SwitchPayload(s: word, action: ButtonAction, buttons: byte, optional: Octets, tag: Octets): Octets
    requires buttons < 16 && |tag| == TAG_LEN
  {
    ToLE(s, 4) + [StatusByte(action, buttons)] + optional + tag
  }

  /** The payload may be accepted: it is long enough, fresh, and its tag verifies. */
  predicate FreshAndAuthentic(env: Env, addr: Octets, e: Entry, p: Octets)
    requires |addr| == ADDR_LEN
  {
    |p| >= DATA_PAYLOAD_MIN && SeqOf(p) > e.seqNum && Authentic(env, addr, e, p)
  }

  lemma SwitchPayloadParts(s: word, action: ButtonAction, buttons: byte, optional: Octets, tag: Octets)
    requires buttons < 16 && |tag| == TAG_LEN
    ensures var p := SwitchPayload(s, action, buttons, optional, tag);
            && |p| == 9 + |optional| && SeqOf(p) == s && Tag(p) == tag && p[5..|p| - TAG_LEN] == optional
            && p[4] < 32 && ActionOf(p[4]) == action && p[4] / 2 % 16 == buttons
  {
    var p := SwitchPayload(s, action, buttons, optional, tag);
    assert p[..4] == ToLE(s, 4);
    WordBytes(s);
    assert p[4] == StatusByte(action, buttons);
  }

  /** A payload with an acceptable status byte is the encoding of its parts. */
  lemma SwitchPayloadOf(p: Octets)
    requires |p| >= 9 && p[4] < 32
    ensures p == SwitchPayload(SeqOf(p), ActionOf(p[4]), p[4] / 2 % 16, p[5..|p| - TAG_LEN], Tag(p))
  {
    SeqOfRoundTrip(p);
    assert StatusByte(ActionOf(p[4]), p[4] / 2 % 16) == p[4];
    assert p == p[..4] + [p[4]] + p[5..|p| - TAG_LEN] + p[|p| - TAG_LEN..];
  }

  /** A button event is emitted for exactly the fresh, authentic encodings with 0, 1, 2 or 4 optional bytes,
  and says what was encoded. */
  lemma SwitchEventExact(env: Env, addr: Octets, e: Entry, p: Octets,
                         action: ButtonAction, buttons: byte, optional: Octets)
    requires |addr| == ADDR_LEN
    ensures (exists d :: ButtonCall(addr, d, action, buttons, optional) in SwitchStep(env, addr, e, p).1)
            <==> && env.onButton && FreshAndAuthentic(env, addr, e, p)
                 && buttons < 16 && |optional| in {0, 1, 2, 4}
                 && p == SwitchPayload(SeqOf(p), action, buttons, optional, Tag(p))
  {
    var events := SwitchStep(env, addr, e, p).1;
    if |p| >= 9 && p[4] < 32 {
      SwitchPayloadOf(p);
    }
    if |p| >= 9 && buttons < 16 && p == SwitchPayload(SeqOf(p), action, buttons, optional, Tag(p)) {
      SwitchPayloadParts(SeqOf(p), action, buttons, optional, Tag(p));
    }
    if |events| == 2 {
      assert events[1] in events;
    }
  }

  /** With a button callback registered, the sequence number advances without an event exactly for fresh,
  authentic telegrams of twelve bytes with clear reserved bits. */
  lemma SilentAdvanceExact(env: Env, addr: Octets, e: Entry, p: Octets)
    requires |addr| == ADDR_LEN && env.onButton
    ensures var (d, events) := SwitchStep(env, addr, e, p);
            d.seqNum != e.seqNum && (forall x <- events :: !x.ButtonCall?)
            <==> FreshAndAuthentic(env, addr, e, p) && |p| == 12 && p[4] < 32
  {
    var events := SwitchStep(env, addr, e, p).1;
    if |events| == 2 {
      assert events[1] in events;
    }
  }

  /** Such a telegram of a switch whose stored number is 0: number 1, a press, three optional bytes. */
  lemma TwelveByteTelegram(addr: Octets, e: Entry)
    requires |addr| == ADDR_LEN && e.seqNum == 0
    ensures var env := Env((_, _, _, _) => true, true, true, true);
            var p: Octets := [1, 0, 0, 0, 3, 0xA, 0xB, 0xC, 0, 0, 0, 0];
            && p == SwitchPayload(1, Press, 1, [0xA, 0xB, 0xC], [0, 0, 0, 0])
            && SwitchStep(env, addr, e, p) == (e.(seqNum := 1), [Acceptance(addr, e, p)])
  {
    WordBytes(1);
    SwitchPayloadParts(1, Press, 1, [0xA, 0xB, 0xC], [0, 0, 0, 0]);
  }

  // ------------------------------------------------------------------ Acceptance

  /** The number in the first four bytes of a payload, least significant byte first. */
  function Number(p: Octets): (n: word)
    requires |p| >= 4
    ensures n == SeqOf(p)
  {
    FourBytes(p[..4]);
    p[0] as int + 0x100 * p[1] as int + 0x1_0000 * p[2] as int + 0x100_0000 * p[3] as int
  }

  /** The backend verifies the last four bytes of `p` under the key, with the nonce of address and number, over
  all bytes before them. */
  predicate Verifies(env: Env, key: Octets, addr: Octets, p: Octets)
    requires |p| >= 4
  {
    env.auth(key, addr + p[..4] + [0, 0, 0], p[..|p| - 4], p[|p| - 4..])
  }

  /** The acceptance that goes with it. */
  function AcceptanceOf(key: Octets, addr: Octets, p: Octets): Event
    requires |p| >= 4
  {
    Accepted(addr, key, Number(p), addr + p[..4] + [0, 0, 0], p[..|p| - 4], p[|p| - 4..])
  }

  lemma SameTerms(env: Env, addr: Octets, e: Entry, p: Octets)
    requires |addr| == ADDR_LEN && |p| >= DATA_PAYLOAD_MIN
    ensures Authentic(env, addr, e, p) == Verifies(env, e.key, addr, p)
    ensures Acceptance(addr, e, p) == AcceptanceOf(e.key, addr, p)
  {
    SeqOfRoundTrip(p);
  }

  /** A data telegram of a commissioned device, in terms of its bytes. It is accepted exactly when it verifies, its
  number is larger than the stored one and, for a switch, it is at most 13 bytes long with clear reserved bits.
  The signal strength is stored in any case; only an accepted telegram stores its number and causes events. The
  first is the acceptance. A callback follows exactly when it is registered and, for a switch, the optional data
  are not three bytes long; it gets the stored entry and what the bytes say. */
  lemma DataTelegramExact(env: Env, s: State, a: Advert)
    requires s.initialised && |a.addr| == 6 && a.advType == 3 && a.addrType == 1 && |Payload(a)| >= 9
    requires a.addr in s.table
    ensures var p, e := Payload(a), s.table[a.addr];
            var (t, events) := Step(env, s, Receive(a));
            var accepted := && Verifies(env, e.key, a.addr, p) && Number(p) > e.seqNum
                            && (e.kind == Switch ==> |p| <= 13 && p[4] < 32);
            var d := e.(rssi := a.rssi, seqNum := if accepted then Number(p) else e.seqNum);
            && t == s.(table := s.table[a.addr := d])
            && (!accepted ==> events == [])
            && (accepted && e.kind == Switch && env.onButton && |p| != 12
                ==> events == [AcceptanceOf(e.key, a.addr, p),
                               ButtonCall(a.addr, d, if p[4] % 2 == 1 then Press else Release, p[4] / 2,
                                          p[5..|p| - 4])])
            && (accepted && e.kind != Switch && env.onSensor
                ==> events == [AcceptanceOf(e.key, a.addr, p),
                               SensorCall(a.addr, d, SensorTlv.Decode(p[4..|p| - 4], SensorTlv.NOTHING))])
            && (accepted && (if e.kind == Switch then !env.onButton || |p| == 12 else !env.onSensor)
                ==> events == [AcceptanceOf(e.key, a.addr, p)])
  {
    hide SensorTlv.Decode, Payload;
    SameTerms(env, a.addr, s.table[a.addr], Payload(a));
  }

  /** The 16 key bytes of a commissioning payload: behind the marker in a marked payload of 27 bytes, behind the
  number otherwise. */
  function KeyBytes(p: Octets): (key: Octets)
    requires |p| >= 22
    ensures |key| == 16
  {
    if |p| == 27 && p[4] == 0x3E then p[5..21] else p[4..20]
  }

  /** An advertisement of an unknown address adds an entry exactly when it passes the filters, commissioning is
  enabled, the payload is long enough and, for a sensor, in the marked format, and a slot is free. Then it stores
  key, number, signal strength and detected type, and the callback gets the stored entry exactly when it is
  registered. Otherwise it has no effect at all. */
  lemma PairingExact(env: Env, s: State, a: Advert)
    requires a.addr !in s.table
    ensures var p := Payload(a);
            var (t, events) := Step(env, s, Receive(a));
            && (a.addr in t.table
                <==> && s.initialised && |a.addr| == ADDR_LEN && a.advType == 3 && a.addrType == 1
                     && s.commissioning && |p| >= 22 && |s.table| < 8
                     && (DetectDeviceType(a.addr) == Sensor ==> |p| == 27 && p[4] == 0x3E))
            && (a.addr !in t.table ==> t == s && events == [])
            && (a.addr in t.table ==>
                  var e := Entry(1, KeyBytes(p), Number(p), a.rssi, DetectDeviceType(a.addr));
                  && t == s.(table := s.table[a.addr := e])
                  && events == [Paired(a.addr, KeyBytes(p), Number(p))]
                               + if env.onCommissioned then [CommissionedCall(a.addr, e)] else [])
  {
    hide Payload;
  }

  /** A commissioning payload of a known address, if it is not refused: key, number and signal strength are
  replaced, the number even by a smaller one, type and address type are kept, and no callback is made. */
  lemma RecommissioningExact(env: Env, s: State, addr: Octets, addrType: byte, rssi: int8, p: Octets)
    requires addr in s.table
    ensures var (t, events) := CommissionStep(env, s, addr, addrType, rssi, p);
            if |p| < 22 || (DetectDeviceType(addr) == Sensor && !(|p| == 27 && p[4] == 0x3E)) then
              t == s && events == []
            else
              var e := s.table[addr];
              && t == s.(table := s.table[addr := Entry(e.addrType, KeyBytes(p), Number(p), rssi, e.kind)])
              && events == [Rekeyed(addr, KeyBytes(p), Number(p))]
  {
  }

  /** An advertisement with the wrong address length, address type or advertising type, or without an EnOcean
  payload of at least nine bytes, has no effect, and none has before initialisation. */
  lemma FilteredHasNoEffect(env: Env, s: State, a: Advert)
    requires !s.initialised || |a.addr| != 6 || a.advType != 3 || a.addrType != 1 || |Payload(a)| < 9
    ensures Step(env, s, Receive(a)) == (s, [])
  {
  }

  /** While the walk stays inside the advertisement, what follows it in memory does not reach the driver. */
  lemma StepIgnoresAfter(env: Env, s: State, a: Advert, b: byte)
    requires !AdStructures.TouchesAfter(a.data)
    ensures Step(env, s, Receive(a)) == Step(env, s, Receive(a.(after := b)))
  {
    AdStructures.InsideIgnoresAfter(a.data, a.after, b);
  }

  // ------------------------------------------------------------------ Advertisements

  /** `data` carries `payload` in an EnOcean record after complete records none of which ends the walk; any
  bytes follow. */
  predicate Framed(data: Octets, others: seq<AdStructures.AdRecord>, payload: Octets, rest: Octets)
    requires |payload| <= 252
  {
    var tail := AdStructures.EnoceanRecord(payload).Write() + rest;
    AdStructures.Valid(others) && AdStructures.Reaches(others, tail) && data == AdStructures.Write(others) + tail
  }

  /** An advertisement with the driver's address and advertising types whose data carries `payload`. */
  ghost predicate Carries(a: Advert, payload: Octets) {
    && |a.addr| == ADDR_LEN && a.advType == ADV_NONCONN_IND && a.addrType == ADDR_RANDOM
    && |payload| <= 252
    && exists others, rest :: Framed(a.data, others, payload, rest)
  }

  lemma CarriedPayload(a: Advert, payload: Octets)
    requires Carries(a, payload)
    ensures Payload(a) == payload
    ensures |a.addr| == ADDR_LEN && a.advType == ADV_NONCONN_IND && a.addrType == ADDR_RANDOM
  {
    var others, rest :| Framed(a.data, others, payload, rest);
    AdStructures.ExtractUndoesWrite(others, payload, rest, a.after);
  }

  /** From the air to the callback: a fresh, authentic switch telegram of a commissioned switch, in any
  advertisement that carries it, produces exactly the encoded event and stores its sequence number. */
  lemma SwitchAdvertisement(env: Env, s: State, a: Advert, n: word,
                            action: ButtonAction, buttons: byte, optional: Octets, tag: Octets)
    requires s.initialised && a.addr in s.table && s.table[a.addr].kind == Switch && env.onButton
    requires buttons < 16 && |optional| in {0, 1, 2, 4} && |tag| == TAG_LEN
    requires Carries(a, SwitchPayload(n, action, buttons, optional, tag))
    requires FreshAndAuthentic(env, a.addr, s.table[a.addr], SwitchPayload(n, action, buttons, optional, tag))
    ensures var p := SwitchPayload(n, action, buttons, optional, tag);
            var e := s.table[a.addr].(rssi := a.rssi, seqNum := n);
            Step(env, s, Receive(a))
            == (s.(table := s.table[a.addr := e]),
                [Acceptance(a.addr, s.table[a.addr], p), ButtonCall(a.addr, e, action, buttons, optional)])
  {
    CarriedPayload(a, SwitchPayload(n, action, buttons, optional, tag));
    SwitchPayloadParts(n, action, buttons, optional, tag);
  }

  /** Sequence number, fields, tag. */
  function SensorPayload(n: word, fields: Octets, tag: Octets): Octets
    requires |tag| == TAG_LEN
  {
    ToLE(n, 4) + fields + tag
  }

  lemma SensorPayloadParts(n: word, fields: Octets, tag: Octets)
    requires |tag| == TAG_LEN
    ensures var p := SensorPayload(n, fields, tag);
            |p| == 8 + |fields| && SeqOf(p) == n && p[4..|p| - TAG_LEN] == fields
  {
    var p := SensorPayload(n, fields, tag);
    assert p[..4] == ToLE(n, 4);
    WordBytes(n);
  }

  /** From the air to the callback: a fresh, authentic sensor telegram whose fields encode `d`, in any order and
  interleaved with fields that carry no quantity, reports exactly `d`. */
  lemma SensorAdvertisement(env: Env, s: State, a: Advert, n: word,
                            ts: seq<SensorTlv.Tlv>, tail: Octets, tag: Octets, d: SensorTlv.SensorData)
    requires s.initialised && a.addr in s.table && s.table[a.addr].kind != Switch && env.onSensor
    requires |tag| == TAG_LEN && SensorTlv.Valid(ts) && SensorTlv.Incomplete(tail)
    requires Carries(a, SensorPayload(n, SensorTlv.Write(ts) + tail, tag))
    requires FreshAndAuthentic(env, a.addr, s.table[a.addr], SensorPayload(n, SensorTlv.Write(ts) + tail, tag))
    requires SensorTlv.InRange(d) && SensorTlv.Encodes(ts, d)
    ensures var p := SensorPayload(n, SensorTlv.Write(ts) + tail, tag);
            var e := s.table[a.addr].(rssi := a.rssi, seqNum := n);
            Step(env, s, Receive(a))
            == (s.(table := s.table[a.addr := e]),
                [Acceptance(a.addr, s.table[a.addr], p), SensorCall(a.addr, e, d)])
  {
    hide SensorTlv.Decode, SensorTlv.Write, SensorTlv.Encodes, SensorTlv.InRange, SensorTlv.Incomplete;
    hide Carries, SensorPayload, SensorTlv.Valid;
    CarriedPayload(a, SensorPayload(n, SensorTlv.Write(ts) + tail, tag));
    SensorPayloadParts(n, SensorTlv.Write(ts) + tail, tag);
    SensorTlv.DecodeUndoesEncode(ts, tail, d);
  }

  // ------------------------------------------------------------------ Commissioning

  /** The commissioning payload of a switch: sequence number, key, anything. */
  function PlainCommissioning(n: word, key: Octets, extra: Octets): Octets {
    ToLE(n, 4) + key + extra
  }

  /** The commissioning payload of a sensor: the marker precedes the key, and six bytes follow it. */
  function MarkedCommissioning(n: word, key: Octets, address: Octets): Octets {
    ToLE(n, 4) + [STM_MARKER] + key + address
  }

  predicate OpenFor(s: State, a: Advert) {
    s.initialised && s.commissioning && a.addr !in s.table && |s.table| < MAX_DEVICES
  }

  /** The state once the advertising device is stored with the key. */
  function Stored(s: State, a: Advert, n: word, key: Octets): State {
    s.(table := s.table[a.addr := Entry(a.addrType, key, n, a.rssi, DetectDeviceType(a.addr))])
  }

  /** The events of storing a device: the pairing and, when it is registered, the callback with the entry. */
  function Pairing(env: Env, t: State, addr: Octets): seq<Event>
    requires addr in t.table
  {
    var e := t.table[addr];
    [Paired(addr, e.key, e.seqNum)] + if env.onCommissioned then [CommissionedCall(addr, e)] else []
  }

  /** A new sensor or any other device that uses the marked format is stored with its key. */
  lemma MarkedCommissioningStores(env: Env, s: State, a: Advert, n: word, key: Octets, address: Octets)
    requires OpenFor(s, a) && |key| == KEY_LEN && |address| == 6
    requires Carries(a, MarkedCommissioning(n, key, address))
    ensures var t := Stored(s, a, n, key);
            Step(env, s, Receive(a)) == (t, Pairing(env, t, a.addr))
  {
    var p := MarkedCommissioning(n, key, address);
    CarriedPayload(a, p);
    assert p[..4] == ToLE(n, 4);
    WordBytes(n);
    assert p[5..21] == key;
  }

  /** The plain payload is taken for a marked one: 27 bytes with the marker as first key byte. */
  predicate LooksMarked(key: Octets, extra: Octets) {
    |key| == KEY_LEN && |extra| == 7 && key[0] == STM_MARKER
  }

  /** A new device that uses the plain format is stored with its key, if and only if it is no sensor and the
  payload does not look marked, or the shifted key happens to be the same. A payload that looks marked stores
  the shifted key; any other payload of a sensor stores nothing. */
  lemma PlainCommissioningExact(env: Env, s: State, a: Advert, n: word, key: Octets, extra: Octets)
    requires OpenFor(s, a) && |key| == KEY_LEN && |extra| >= 2
    requires Carries(a, PlainCommissioning(n, key, extra))
    ensures var (t, events) := Step(env, s, Receive(a));
            && (t == Stored(s, a, n, key)
                <==> if LooksMarked(key, extra) then key[1..] + [extra[0]] == key
                     else DetectDeviceType(a.addr) != Sensor)
            && (LooksMarked(key, extra) ==> t == Stored(s, a, n, key[1..] + [extra[0]]))
            && (!LooksMarked(key, extra) && DetectDeviceType(a.addr) == Sensor ==> t == s && events == [])
            && (a.addr in t.table ==> events == Pairing(env, t, a.addr))
  {
    var p := PlainCommissioning(n, key, extra);
    CarriedPayload(a, p);
    assert p[..4] == ToLE(n, 4);
    WordBytes(n);
    assert p[4] == key[0];
    assert p[4..20] == key;
    assert p[5..21] == key[1..] + [extra[0]];
    assert Stored(s, a, n, key).table[a.addr].key == key;
    assert Stored(s, a, n, p[5..21]).table[a.addr].key == p[5..21];
  }

  /** Such a key, and seven bytes after it. */
  const MARKER_KEY: Octets := [0x3E, 1, 2, 3, 4, 5, 6, 7, 8, 9, 10, 11, 12, 13, 14, 15]
  const SEVEN_BYTES: Octets := [0x77, 0, 0, 0, 0, 0, 0]

  /** The plain payload in an advertisement of 31 bytes that holds nothing else. */
  function PlainAdvert(): Advert {
    var p := PlainCommissioning(1, MARKER_KEY, SEVEN_BYTES);
    Advert([1, 2, 3, 4, 0xDA, 3], ADDR_RANDOM, ADV_NONCONN_IND, -60, AdStructures.EnoceanRecord(p).Write(), 0)
  }

  /** The first switch to be commissioned is stored with a wrong key. */
  lemma PlainKeyShifted(env: Env)
    ensures var s, a := State(true, true, map[]), PlainAdvert();
            && |a.data| == 31
            && Step(env, s, Receive(a)).0 == Stored(s, a, 1, MARKER_KEY[1..] + [0x77])
            && MARKER_KEY[1..] + [0x77] != MARKER_KEY
  {
    var s, a, p := State(true, true, map[]), PlainAdvert(), PlainCommissioning(1, MARKER_KEY, SEVEN_BYTES);
    assert Framed(a.data, [], p, []) by {
      assert a.data == AdStructures.Write([]) + (a.data + []);
    }
    PlainCommissioningExact(env, s, a, 1, MARKER_KEY, SEVEN_BYTES);
    assert (MARKER_KEY[1..] + [0x77])[0] == 1;
  }
}
