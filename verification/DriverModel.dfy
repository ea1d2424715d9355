/** The EnOcean driver as an abstract machine: a table from BLE address to device entry, a commissioning
flag and an initialised flag, driven by control calls and advertisements. */
module DriverModel {
  import opened Bytes
  import AdStructures
  import SensorTlv

  type Octets = seq<byte>

  const ADDR_LEN := 6
  const KEY_LEN := 16
  const TAG_LEN := 4
  const NONCE_LEN := 13
  const MAX_DEVICES := 8

  const ADV_NONCONN_IND: byte := 0x03
  const ADDR_RANDOM: byte := 0x01
  const DATA_PAYLOAD_MIN := 9
  const SWITCH_PAYLOAD_MAX := 13
  const COMMISSIONING_PAYLOAD_MIN := 22
  const STM_PAYLOAD_LEN := 27
  const STM_MARKER: byte := 0x3E

  datatype DeviceType = Switch | Sensor | Unknown

  /** The product family, from the two most significant address bytes. */
  function DetectDeviceType(addr: Octets): DeviceType {
    if |addr| < ADDR_LEN then Unknown
    else if (addr[5] == 0x03 && addr[4] == 0xDA) || (addr[5] == 0xE2 && addr[4] == 0x15) then Switch
    else if addr[5] == 0xE5 then Sensor
    else Unknown
  }

  /** Switches carry the company ID 0x03DA or the product type 0xE215 in the two most significant address
  bytes; sensors are known by the most significant byte alone. */
  lemma ProductFamilies(addr: Octets)
    requires |addr| == ADDR_LEN
    ensures DetectDeviceType(addr) == Switch <==> FromLE(addr[4..]) in {0x03DA, 0xE215}
    ensures DetectDeviceType(addr) == Sensor <==> FromLE(addr[5..]) == 0xE5
  {
  }

  // ------------------------------------------------------------------ Nonces

  /** The CCM nonce of a telegram: address, little-endian sequence number, padding. */
  function Nonce(addr: Octets, s: word): (n: Octets)
    requires |addr| == ADDR_LEN
    ensures |n| == NONCE_LEN
  {
    addr + ToLE(s, 4) + [0, 0, 0]
  }

  method BuildNonce(addr: Octets, s: word, nonce: array<byte>)
    requires |addr| == ADDR_LEN && nonce.Length == NONCE_LEN
    modifies nonce
    ensures nonce[..] == Nonce(addr, s)
  {
    var i := 0;
    while i < ADDR_LEN
      invariant 0 <= i <= ADDR_LEN
      invariant nonce[..i] == addr[..i]
    {
      nonce[i] := addr[i];
      i := i + 1;
    }
    nonce[6] := s % 256;
    nonce[7] := s / 256 % 256;
    nonce[8] := s / 65536 % 256;
    nonce[9] := s / 16777216 % 256;
    nonce[10], nonce[11], nonce[12] := 0, 0, 0;
    WordBytes(s);
    assert nonce[..6] == addr;
    assert nonce[..] == nonce[..6] + nonce[6..10] + nonce[10..];
  }

  /** Different address and sequence number pairs have different nonces. */
  lemma NonceInjective(a: Octets, s: word, b: Octets, t: word)
    requires |a| == |b| == ADDR_LEN && Nonce(a, s) == Nonce(b, t)
    ensures a == b && s == t
  {
    assert Nonce(a, s)[..6] == a && Nonce(b, t)[..6] == b;
    assert Nonce(a, s)[6..10] == ToLE(s, 4) && Nonce(b, t)[6..10] == ToLE(t, 4);
    WordBytesInjective(s, t);
  }

  /** The nonce of a telegram repeats the four bytes its sequence number was read from. */
  lemma NonceCarriesSequenceBytes(a: Octets, p: Octets)
    requires |a| == ADDR_LEN && |p| >= 4
    ensures Nonce(a, SeqOf(p))[..6] == a && Nonce(a, SeqOf(p))[6..10] == p[..4]
    ensures Nonce(a, SeqOf(p))[10..] == [0, 0, 0]
  {
    SeqOfRoundTrip(p);
  }

  // ------------------------------------------------------------------ State, inputs and trace

  /** What the table holds for a commissioned address. */
  datatype Entry = Entry(addrType: byte, key: Octets, seqNum: word, rssi: int8, kind: DeviceType)

  datatype State = State(initialised: bool, commissioning: bool, table: map<Octets, Entry>)

  const POWER_ON := State(false, false, map[])

  /** A received advertisement. `after` is the byte that follows `data` in memory. */
  datatype Advert = Advert(addr: Octets, addrType: byte, advType: byte, rssi: int8, data: Octets, after: byte)

  datatype Input = Init | Enable | Disable | Receive(advert: Advert)

  datatype ButtonAction = Release | Press

  /** The trace: the control calls, the driver's decisions, and the callbacks it makes. */
  datatype Event =
    | Initialised
    | Enabled
    | Disabled
    | Paired(addr: Octets, key: Octets, seqNum: word)
    | Rekeyed(addr: Octets, key: Octets, seqNum: word)
    | Accepted(addr: Octets, key: Octets, seqNum: word, nonce: Octets, aad: Octets, tag: Octets)
    | CommissionedCall(addr: Octets, device: Entry)
    | ButtonCall(addr: Octets, device: Entry, action: ButtonAction, buttons: byte, optional: Octets)
    | SensorCall(addr: Octets, device: Entry, data: SensorTlv.SensorData)

  /** The driver's surroundings: the crypto backend's verdict on (key, nonce, aad, tag), and which callbacks
  are registered. */
  datatype Env = Env(
    auth: (Octets, Octets, Octets, Octets) -> bool,
    onButton: bool,
    onSensor: bool,
    onCommissioned: bool)

  // ------------------------------------------------------------------ Telegrams

  function Aad(p: Octets): Octets
    requires |p| >= TAG_LEN
  {
    p[..|p| - TAG_LEN]
  }

  function Tag(p: Octets): Octets
    requires |p| >= TAG_LEN
  {
    p[|p| - TAG_LEN..]
  }

  /** The payload's tag verifies under the entry's key. */
  predicate Authentic(env: Env, addr: Octets, e: Entry, p: Octets)
    requires |addr| == ADDR_LEN && |p| >= DATA_PAYLOAD_MIN
  {
    env.auth(e.key, Nonce(addr, SeqOf(p)), Aad(p), Tag(p))
  }

  function Acceptance(addr: Octets, e: Entry, p: Octets): Event
    requires |addr| == ADDR_LEN && |p| >= DATA_PAYLOAD_MIN
  {
    Accepted(addr, e.key, SeqOf(p), Nonce(addr, SeqOf(p)), Aad(p), Tag(p))
  }

  function ActionOf(status: byte): ButtonAction {
    if status % 2 == 1 then Press else Release
  }

  /** A switch telegram for the entry: the new entry and the events. */
  function SwitchStep(env: Env, addr: Octets, e: Entry, p: Octets): (r: (Entry, seq<Event>))
    requires |addr| == ADDR_LEN
    ensures r.0.addrType == e.addrType && r.0.key == e.key && r.0.kind == e.kind && r.0.seqNum >= e.seqNum
  {
    if |p| < DATA_PAYLOAD_MIN || SeqOf(p) <= e.seqNum || |p| > SWITCH_PAYLOAD_MAX || p[4] >= 32
       || !Authentic(env, addr, e, p) then (e, [])
    else
      var e' := e.(seqNum := SeqOf(p));
      var optional := p[5..|p| - TAG_LEN];
      if |optional| == 3 || !env.onButton then (e', [Acceptance(addr, e, p)])
      else (e', [Acceptance(addr, e, p), ButtonCall(addr, e', ActionOf(p[4]), p[4] / 2 % 16, optional)])
  }

  /** A sensor telegram for the entry. */
  function SensorStep(env: Env, addr: Octets, e: Entry, p: Octets): (r: (Entry, seq<Event>))
    requires |addr| == ADDR_LEN
    ensures r.0.addrType == e.addrType && r.0.key == e.key && r.0.kind == e.kind && r.0.seqNum >= e.seqNum
  {
    if |p| < DATA_PAYLOAD_MIN || SeqOf(p) <= e.seqNum || !Authentic(env, addr, e, p) then (e, [])
    else
      var e' := e.(seqNum := SeqOf(p));
      var data := SensorTlv.Decode(p[4..|p| - TAG_LEN], SensorTlv.NOTHING);
      if !env.onSensor then (e', [Acceptance(addr, e, p)])
      else (e', [Acceptance(addr, e, p), SensorCall(addr, e', data)])
  }

  /** Any data telegram for a commissioned device: its signal strength is recorded before any check. */
  function DataStep(env: Env, addr: Octets, e: Entry, rssi: int8, p: Octets): (r: (Entry, seq<Event>))
    requires |addr| == ADDR_LEN
    ensures r.0.addrType == e.addrType && r.0.key == e.key && r.0.kind == e.kind && r.0.seqNum >= e.seqNum
  {
    var heard := e.(rssi := rssi);
    if e.kind == Switch then SwitchStep(env, addr, heard, p) else SensorStep(env, addr, heard, p)
  }

  /** Where a commissioning payload for an address holds its key; None when the payload is refused. */
  function KeyOffset(addr: Octets, p: Octets): (k: Option<nat>)
    ensures k.Some? ==> k.value + KEY_LEN <= |p|
  {
    if |p| < COMMISSIONING_PAYLOAD_MIN then None
    else if |p| == STM_PAYLOAD_LEN && p[4] == STM_MARKER then Some(5)
    else if DetectDeviceType(addr) == Sensor then None
    else Some(4)
  }

  /** The handling of a commissioning payload, whether or not the address is known. */
  function CommissionStep(env: Env, s: State, addr: Octets, addrType: byte, rssi: int8, p: Octets)
    : (State, seq<Event>)
  {
    var offset := KeyOffset(addr, p);
    if offset.None? then (s, [])
    else
      var key, seqNum := p[offset.value..offset.value + KEY_LEN], SeqOf(p);
      if addr in s.table then
        var e := s.table[addr].(key := key, seqNum := seqNum, rssi := rssi);
        (s.(table := s.table[addr := e]), [Rekeyed(addr, key, seqNum)])
      else if |s.table| >= MAX_DEVICES then (s, [])
      else
        var e := Entry(addrType, key, seqNum, rssi, DetectDeviceType(addr));
        (s.(table := s.table[addr := e]),
         [Paired(addr, key, seqNum)] + if env.onCommissioned then [CommissionedCall(addr, e)] else [])
  }

  // ------------------------------------------------------------------ The machine

  /** The advertisement passes the driver's filters; its payload is then `Payload(a)`. */
  predicate Relevant(s: State, a: Advert) {
    && s.initialised
    && |a.addr| == ADDR_LEN
    && a.advType == ADV_NONCONN_IND
    && a.addrType == ADDR_RANDOM
    && |Payload(a)| >= DATA_PAYLOAD_MIN
  }

  function Payload(a: Advert): Octets {
    AdStructures.Extract(a.data, a.after)
  }

  function ReceiveStep(env: Env, s: State, a: Advert): (State, seq<Event>) {
    if !Relevant(s, a) then (s, [])
    else if a.addr in s.table then
      var (e, events) := DataStep(env, a.addr, s.table[a.addr], a.rssi, Payload(a));
      (s.(table := s.table[a.addr := e]), events)
    else if |Payload(a)| >= COMMISSIONING_PAYLOAD_MIN && s.commissioning then
      CommissionStep(env, s, a.addr, a.addrType, a.rssi, Payload(a))
    else (s, [])
  }

  function Step(env: Env, s: State, input: Input): (State, seq<Event>) {
    match input
    case Init => (State(true, false, map[]), [Initialised])
    case Enable => (s.(commissioning := true), [Enabled])
    case Disable => (s.(commissioning := false), [Disabled])
    case Receive(a) => ReceiveStep(env, s, a)
  }

  /** The state after the inputs, and the trace they add. */
  function Run(env: Env, s: State, inputs: seq<Input>): (State, seq<Event>) {
    if inputs == [] then (s, [])
    else
      var (s1, t1) := Run(env, s, inputs[..|inputs| - 1]);
      var (s2, t2) := Step(env, s1, inputs[|inputs| - 1]);
      (s2, t1 + t2)
  }

  lemma RunSnoc(env: Env, s: State, inputs: seq<Input>, input: Input)
    ensures var (s1, t1) := Run(env, s, inputs);
            var (s2, t2) := Step(env, s1, input);
            Run(env, s, inputs + [input]) == (s2, t1 + t2)
  {
  }

  /** Every state the driver can be in is well formed. */
  predicate WellFormed(s: State) {
    && |s.table| <= MAX_DEVICES
    && (!s.initialised ==> s.table == map[])
    && forall a | a in s.table :: WellFormedEntry(a, s.table[a])
  }

  predicate WellFormedEntry(a: Octets, e: Entry) {
    |a| == ADDR_LEN && e.addrType == ADDR_RANDOM && |e.key| == KEY_LEN && e.kind == DetectDeviceType(a)
  }

  lemma InsertWellFormed(s: State, addr: Octets, e: Entry)
    requires WellFormed(s) && s.initialised && WellFormedEntry(addr, e)
    requires addr in s.table || |s.table| < MAX_DEVICES
    ensures WellFormed(s.(table := s.table[addr := e]))
  {
  }

  lemma CommissionWellFormed(env: Env, s: State, addr: Octets, rssi: int8, p: Octets)
    requires WellFormed(s) && s.initialised && |addr| == ADDR_LEN
    ensures WellFormed(CommissionStep(env, s, addr, ADDR_RANDOM, rssi, p).0)
  {
  }

  lemma {:induction false} StepWellFormed(env: Env, s: State, input: Input)
    requires WellFormed(s)
    ensures WellFormed(Step(env, s, input).0)
  {
    if input.Receive? && Relevant(s, input.advert) {
      var a := input.advert.addr;
      if a in s.table {
        InsertWellFormed(s, a, DataStep(env, a, s.table[a], input.advert.rssi, Payload(input.advert)).0);
      } else {
        CommissionWellFormed(env, s, a, input.advert.rssi, Payload(input.advert));
      }
    }
  }

  lemma {:induction false} RunWellFormed(env: Env, s: State, inputs: seq<Input>)
    requires WellFormed(s)
    ensures WellFormed(Run(env, s, inputs).0)
  {
    if inputs != [] {
      var before := inputs[..|inputs| - 1];
      hide Step;
      RunWellFormed(env, s, before);
      StepWellFormed(env, Run(env, s, before).0, inputs[|before|]);
    }
  }
}
