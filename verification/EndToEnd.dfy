/** From the bytes of an HCI event to the driver's callbacks, in buffer positions and literal codes. */
module EndToEnd {
  import opened Bytes
  import opened DriverModel
  import opened HciPath
  import AdStructures
  import AdvReports
  import DriverRuns
  import EnoceanDriver
  import SensorTlv
  import Telegrams

  // ------------------------------------------------------------------ Which bytes become which inputs

  /** Position of report `k`, if the reports before it are complete: each has ten bytes besides its data. */
  function Start(event: seq<byte>, k: nat): (at: nat)
    ensures at >= 5
  {
    if k == 0 then 5
    else
      var before := Start(event, k - 1);
      before + 10 + if before + 8 < |event| then event[before + 8] as int else 0
  }

  /** Report `k` lies within the event: its header of nine bytes, as much data as byte 8 says, and its last byte. */
  predicate Complete(event: seq<byte>, k: nat) {
    var at := Start(event, k);
    at + 10 <= |event| && at + 10 + event[at + 8] as int <= |event|
  }

  /** The header of an advertising report event that announces at most fifteen reports. */
  predicate Announces(event: seq<byte>) {
    |event| >= 5 && event[0] == 4 && event[1] == 0x3E && event[3] == 2 && event[4] <= 15
  }

  /** The advertisement at position `at`: its type, address type, address, data and signal strength. The byte after
  the data is the signal strength. */
  function AdvertOf(event: seq<byte>, at: nat): Advert
    requires at + 10 <= |event| && at + 10 + event[at + 8] as int <= |event|
  {
    var n := event[at + 8] as int;
    Advert(
      advType := event[at],
      addrType := event[at + 1],
      addr := event[at + 2..at + 8],
      data := event[at + 9..at + 9 + n],
      rssi := Signed(event[at + 9 + n]),
      after := event[at + 9 + n])
  }

  /** After `k` delivered reports the loop is at the start of report `k`. */
  lemma {:induction false} DeliveredFrom(event: seq<byte>, k: nat)
    requires Announces(event) && k <= |ReportsOf(event)|
    ensures k <= event[4] as int && Start(event, k) <= |event|
    ensures ReportsOf(event)[k..] == AdvReports.Deliver(event[Start(event, k)..], event[4] as int - k)
  {
    hide AdvReports.Deliver, AdvReports.First;
    if k > 0 {
      DeliveredFrom(event, k - 1);
      NextReport(event, k - 1);
    }
  }

  lemma NextReport(event: seq<byte>, k: nat)
    requires Announces(event) && k < |ReportsOf(event)|
    requires k <= event[4] as int && Start(event, k) <= |event|
    requires ReportsOf(event)[k..] == AdvReports.Deliver(event[Start(event, k)..], event[4] as int - k)
    ensures k < event[4] as int && Complete(event, k) && Start(event, k + 1) <= |event|
    ensures ReportsOf(event)[k] == AdvReports.First(event[Start(event, k)..])
    ensures ReportsOf(event)[k + 1..] == AdvReports.Deliver(event[Start(event, k + 1)..], event[4] as int - (k + 1))
  {
    hide AdvReports.Deliver, AdvReports.First, ReportsOf;
    var rs, at := ReportsOf(event), Start(event, k);
    var rest := event[at..];
    AdvReports.DeliverHead(rest, event[4] as int - k);
    assert rs[k..][0] == rs[k] && rs[k..][1..] == rs[k + 1..];
    assert rest[8] == event[at + 8];
    assert rest[10 + rest[8]..] == event[at + 10 + event[at + 8]..];
  }

  lemma FirstAt(event: seq<byte>, at: nat)
    requires at + 10 <= |event| && at + 10 + event[at + 8] as int <= |event|
    ensures !AdvReports.Incomplete(event[at..]) && ToAdvert(AdvReports.First(event[at..])) == AdvertOf(event, at)
  {
  }

  lemma ReportAt(event: seq<byte>, k: nat)
    requires Announces(event) && k < |ReportsOf(event)|
    ensures k < event[4] as int && Complete(event, k)
    ensures ToAdvert(ReportsOf(event)[k]) == AdvertOf(event, Start(event, k))
  {
    hide ReportsOf, ToAdvert, AdvertOf, AdvReports.Deliver, AdvReports.First;
    DeliveredFrom(event, k);
    NextReport(event, k);
    FirstAt(event, Start(event, k));
  }

  lemma LastReport(event: seq<byte>)
    requires Announces(event)
    ensures |ReportsOf(event)| == event[4] as int || !Complete(event, |ReportsOf(event)|)
  {
    hide ReportsOf, AdvReports.First;
    var k := |ReportsOf(event)|;
    DeliveredFrom(event, k);
    assert ReportsOf(event)[k..] == [];
  }

  /** Which inputs an event gives the driver, for every byte string: none without the right codes or with more than
  fifteen announced reports; otherwise the announced reports that are complete, in order, each with the fields at
  its position. */
  lemma InputsExact(event: seq<byte>, k: nat)
    ensures !Announces(event) ==> ToInputs(ReportsOf(event)) == []
    ensures Announces(event) ==>
              (k < |ToInputs(ReportsOf(event))|
               <==> k < event[4] as int && forall i: nat | i <= k :: Complete(event, i))
    ensures k < |ToInputs(ReportsOf(event))| ==>
              Complete(event, k) && ToInputs(ReportsOf(event))[k] == Receive(AdvertOf(event, Start(event, k)))
  {
    if Announces(event) {
      hide ReportsOf, Complete, ToAdvert, AdvertOf;
      if k < |ReportsOf(event)| {
        forall i: nat | i <= k ensures i < event[4] as int && Complete(event, i) {
          ReportAt(event, i);
        }
        ReportAt(event, k);
      } else {
        LastReport(event);
      }
    }
  }

  // ------------------------------------------------------------------ One report, all the way

  /** An event with one report of a non-connectable advertisement (3) from a random address (1), and any bytes
  after it. */
  function EventBytes(length: byte, addr: Octets, data: Octets, strength: byte, rest: Octets): Octets
    requires |data| <= 255
  {
    [4, 0x3E, length, 2, 1, 3, 1] + addr + [|data|] + data + [strength] + rest
  }

  function Heard(addr: Octets, data: Octets, strength: byte): Advert {
    Advert(addr := addr, addrType := 1, advType := 3, rssi := Signed(strength), data := data, after := strength)
  }

  lemma HeardAt(length: byte, addr: Octets, data: Octets, strength: byte, rest: Octets)
    requires |addr| == 6 && |data| <= 255
    ensures var event := EventBytes(length, addr, data, strength, rest);
            Announces(event) && event[4] == 1 && Complete(event, 0) && AdvertOf(event, 5) == Heard(addr, data, strength)
  {
    var event := EventBytes(length, addr, data, strength, rest);
    assert event[7..13] == addr && event[13] == |data|;
    assert event[14..14 + |data|] == data && event[14 + |data|] == strength;
  }

  /** Such an event acts on the driver as its one advertisement. */
  lemma OneReport(env: Env, s: State, length: byte, addr: Octets, data: Octets, strength: byte, rest: Octets)
    requires |addr| == 6 && |data| <= 255
    ensures Run(env, s, ToInputs(ReportsOf(EventBytes(length, addr, data, strength, rest))))
            == Step(env, s, Receive(Heard(addr, data, strength)))
  {
    hide Run, Step, ReportsOf, Complete, AdvertOf, Announces, EventBytes;
    var event := EventBytes(length, addr, data, strength, rest);
    HeardAt(length, addr, data, strength, rest);
    InputsExact(event, 0);
    InputsExact(event, 1);
    assert ToInputs(ReportsOf(event)) == [Receive(Heard(addr, data, strength))];
    DriverRuns.OneInput(env, s, Receive(Heard(addr, data, strength)));
  }

  lemma HeardCarries(addr: Octets, data: Octets, strength: byte,
                     others: seq<AdStructures.AdRecord>, p: Octets, more: Octets)
    requires |addr| == 6 && |p| <= 252 && Telegrams.Framed(data, others, p, more)
    ensures Telegrams.Carries(Heard(addr, data, strength), p)
  {
  }

  /** A switch telegram from the socket to the callback: if its number is new and its tag verifies, the driver's
  table gets number and signal strength, and the button callback gets what was encoded. */
  lemma SwitchReport(env: Env, s: State, length: byte, addr: Octets, data: Octets, strength: byte, rest: Octets,
                     others: seq<AdStructures.AdRecord>, more: Octets,
                     n: word, action: ButtonAction, buttons: byte, optional: Octets, tag: Octets)
    requires |addr| == 6 && |data| <= 255 && |tag| == 4 && buttons < 16 && |optional| in {0, 1, 2, 4}
    requires s.initialised && addr in s.table && s.table[addr].kind == Switch && env.onButton
    requires var p := Telegrams.SwitchPayload(n, action, buttons, optional, tag);
             && Telegrams.Framed(data, others, p, more)
             && n > s.table[addr].seqNum && Telegrams.Verifies(env, s.table[addr].key, addr, p)
    ensures var p := Telegrams.SwitchPayload(n, action, buttons, optional, tag);
            var d := s.table[addr].(rssi := Signed(strength), seqNum := n);
            Run(env, s, ToInputs(ReportsOf(EventBytes(length, addr, data, strength, rest))))
            == (s.(table := s.table[addr := d]),
                [Telegrams.AcceptanceOf(s.table[addr].key, addr, p), ButtonCall(addr, d, action, buttons, optional)])
  {
    hide Run, Step, ReportsOf, ToInputs, EventBytes, Telegrams.Carries, Telegrams.Framed, Telegrams.SwitchPayload;
    hide Authentic, Acceptance, Telegrams.Verifies, Telegrams.AcceptanceOf, Telegrams.Number, SeqOf;
    var p, a := Telegrams.SwitchPayload(n, action, buttons, optional, tag), Heard(addr, data, strength);
    Telegrams.SwitchPayloadParts(n, action, buttons, optional, tag);
    OneReport(env, s, length, addr, data, strength, rest);
    HeardCarries(addr, data, strength, others, p, more);
    Telegrams.SameTerms(env, addr, s.table[addr], p);
    Telegrams.SwitchAdvertisement(env, s, a, n, action, buttons, optional, tag);
  }

  /** A sensor telegram from the socket to the callback: if its number is new and its tag verifies, the driver's
  table gets number and signal strength, and the sensor callback gets the reading its fields express. */
  lemma SensorReport(env: Env, s: State, length: byte, addr: Octets, data: Octets, strength: byte, rest: Octets,
                     others: seq<AdStructures.AdRecord>, more: Octets,
                     n: word, ts: seq<SensorTlv.Tlv>, tail: Octets, tag: Octets, d: SensorTlv.SensorData)
    requires |addr| == 6 && |data| <= 255 && |tag| == 4
    requires s.initialised && addr in s.table && s.table[addr].kind != Switch && env.onSensor
    requires SensorTlv.Valid(ts) && SensorTlv.Incomplete(tail) && SensorTlv.InRange(d) && SensorTlv.Encodes(ts, d)
    requires var p := Telegrams.SensorPayload(n, SensorTlv.Write(ts) + tail, tag);
             && 9 <= |p| <= 252 && Telegrams.Framed(data, others, p, more)
             && n > s.table[addr].seqNum && Telegrams.Verifies(env, s.table[addr].key, addr, p)
    ensures var p := Telegrams.SensorPayload(n, SensorTlv.Write(ts) + tail, tag);
            var e := s.table[addr].(rssi := Signed(strength), seqNum := n);
            Run(env, s, ToInputs(ReportsOf(EventBytes(length, addr, data, strength, rest))))
            == (s.(table := s.table[addr := e]),
                [Telegrams.AcceptanceOf(s.table[addr].key, addr, p), SensorCall(addr, e, d)])
  {
    hide Run, Step, ReportsOf, ToInputs, EventBytes, Telegrams.Carries, Telegrams.Framed, Telegrams.SensorPayload;
    hide Authentic, Acceptance, Telegrams.Verifies, Telegrams.AcceptanceOf, Telegrams.Number, SeqOf;
    hide SensorTlv.Valid, SensorTlv.Incomplete, SensorTlv.InRange, SensorTlv.Encodes, SensorTlv.Write;
    var p, a := Telegrams.SensorPayload(n, SensorTlv.Write(ts) + tail, tag), Heard(addr, data, strength);
    Telegrams.SensorPayloadParts(n, SensorTlv.Write(ts) + tail, tag);
    OneReport(env, s, length, addr, data, strength, rest);
    HeardCarries(addr, data, strength, others, p, more);
    Telegrams.SameTerms(env, addr, s.table[addr], p);
    Telegrams.SensorAdvertisement(env, s, a, n, ts, tail, tag, d);
  }

  /** A marked commissioning payload of a new address from the socket to the callback. */
  lemma CommissioningReport(env: Env, s: State, length: byte, addr: Octets, data: Octets, strength: byte, rest: Octets,
                            others: seq<AdStructures.AdRecord>, more: Octets, n: word, key: Octets, address: Octets)
    requires |addr| == 6 && |data| <= 255 && |key| == 16 && |address| == 6
    requires s.initialised && s.commissioning && addr !in s.table && |s.table| < 8
    requires Telegrams.Framed(data, others, Telegrams.MarkedCommissioning(n, key, address), more)
    ensures var e := Entry(1, key, n, Signed(strength), DetectDeviceType(addr));
            Run(env, s, ToInputs(ReportsOf(EventBytes(length, addr, data, strength, rest))))
            == (s.(table := s.table[addr := e]),
                [Paired(addr, key, n)] + if env.onCommissioned then [CommissionedCall(addr, e)] else [])
  {
    hide Run, Step, ReportsOf, ToInputs, EventBytes, Telegrams.Carries, Telegrams.Framed;
    OneReport(env, s, length, addr, data, strength, rest);
    HeardCarries(addr, data, strength, others, Telegrams.MarkedCommissioning(n, key, address), more);
    Telegrams.MarkedCommissioningStores(env, s, Heard(addr, data, strength), n, key, address);
  }

  // ------------------------------------------------------------------ A session from power-on

  lemma OpenForPairing(env: Env)
    ensures Run(env, POWER_ON, [Init, Enable]) == (State(true, true, map[]), [Initialised, Enabled])
  {
    DriverRuns.OneInput(env, POWER_ON, Init);
    RunSnoc(env, POWER_ON, [Init], Enable);
    assert [Init] + [Enable] == [Init, Enable];
    assert [Initialised] + [Enabled] == [Initialised, Enabled];
  }

  /** From power-on: the driver is initialised, commissioning is enabled, a sensor (most significant address byte
  0xE5) is commissioned, commissioning is disabled, and a telegram of the sensor arrives. The table and the whole
  trace are determined: one pairing and its callback, one acceptance and the reading. */
  lemma SensorSession(env: Env, length: byte, addr: Octets, key: Octets, address: Octets, n0: word, n1: word,
                      data0: Octets, data1: Octets, strength0: byte, strength1: byte,
                      others0: seq<AdStructures.AdRecord>, others1: seq<AdStructures.AdRecord>,
                      ts: seq<SensorTlv.Tlv>, tag: Octets, d: SensorTlv.SensorData)
    requires |addr| == 6 && addr[5] == 0xE5 && |key| == 16 && |address| == 6 && n0 < n1 && |tag| == 4
    requires |data0| <= 255 && |data1| <= 255
    requires env.onSensor && env.onCommissioned
    requires SensorTlv.Valid(ts) && SensorTlv.InRange(d) && SensorTlv.Encodes(ts, d)
    requires Telegrams.Framed(data0, others0, Telegrams.MarkedCommissioning(n0, key, address), [])
    requires var p := Telegrams.SensorPayload(n1, SensorTlv.Write(ts) + [], tag);
             9 <= |p| <= 252 && Telegrams.Framed(data1, others1, p, []) && Telegrams.Verifies(env, key, addr, p)
    ensures var p := Telegrams.SensorPayload(n1, SensorTlv.Write(ts) + [], tag);
            var e0 := Entry(1, key, n0, Signed(strength0), Sensor);
            var e1 := Entry(1, key, n1, Signed(strength1), Sensor);
            var heard0 := ToInputs(ReportsOf(EventBytes(length, addr, data0, strength0, [])));
            var heard1 := ToInputs(ReportsOf(EventBytes(length, addr, data1, strength1, [])));
            Run(env, POWER_ON, [Init, Enable] + heard0 + [Disable] + heard1)
            == (State(true, false, map[addr := e1]),
                [Initialised, Enabled, Paired(addr, key, n0), CommissionedCall(addr, e0), Disabled,
                 Telegrams.AcceptanceOf(key, addr, p), SensorCall(addr, e1, d)])
  {
    hide Run, ReportsOf, ToInputs, EventBytes, Telegrams.Framed, Telegrams.SensorPayload, Telegrams.Verifies;
    hide SensorTlv.Valid, SensorTlv.InRange, SensorTlv.Encodes, SensorTlv.Write, ReceiveStep, Telegrams.AcceptanceOf;
    var heard0 := ToInputs(ReportsOf(EventBytes(length, addr, data0, strength0, [])));
    var heard1 := ToInputs(ReportsOf(EventBytes(length, addr, data1, strength1, [])));
    var s1 := State(true, true, map[]);
    var e0 := Entry(1, key, n0, Signed(strength0), Sensor);
    var s2 := s1.(table := map[addr := e0]);
    var paired := [Paired(addr, key, n0), CommissionedCall(addr, e0)];
    OpenForPairing(env);
    CommissioningReport(env, s1, length, addr, data0, strength0, [], others0, [], n0, key, address);
    assert s1.table[addr := e0] == s2.table;
    assert [Paired(addr, key, n0)] + [CommissionedCall(addr, e0)] == paired;
    assert Run(env, s1, heard0) == (s2, paired);
    DriverRuns.RunAppend(env, POWER_ON, [Init, Enable], heard0);
    DriverRuns.OneInput(env, s2, Disable);
    DriverRuns.RunAppend(env, POWER_ON, [Init, Enable] + heard0, [Disable]);
    assert Run(env, POWER_ON, [Init, Enable] + heard0 + [Disable])
        == (s2.(commissioning := false), [Initialised, Enabled] + paired + [Disabled]);
    SensorReport(env, s2.(commissioning := false), length, addr, data1, strength1, [], others1, [], n1, ts, [], tag, d);
    DriverRuns.RunAppend(env, POWER_ON, [Init, Enable] + heard0 + [Disable], heard1);
    var e1 := e0.(rssi := Signed(strength1), seqNum := n1);
    assert s2.table[addr := e1] == map[addr := e1];
    var p := Telegrams.SensorPayload(n1, SensorTlv.Write(ts) + [], tag);
    var accepted, call := Telegrams.AcceptanceOf(key, addr, p), SensorCall(addr, e1, d);
    assert [Initialised, Enabled] + paired + [Disabled] + [accepted, call]
        == [Initialised, Enabled, paired[0], paired[1], Disabled, accepted, call];
  }
}
