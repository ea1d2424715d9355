/** LE advertising report events (section 7.7.65.2 of Bluetooth Core Specification Vol 4 Part E): the
scanner's parsing loop, the serialiser it inverts, and the path from an HCI event into the driver. */
module AdvReports {
  import opened Bytes

  const REPORT_HDR := 10
  const MAX_REPORTS := 15

  datatype Report = Report(advType: byte, addrType: byte, addr: seq<byte>, data: seq<byte>, rssi: int8) {
    predicate Valid() {
      |addr| == 6 && |data| <= 255
    }

    function Write(): (s: seq<byte>)
      requires Valid()
      ensures |s| == REPORT_HDR + |data|
    {
      [advType, addrType] + addr + [|data|] + data + [Unsigned(rssi)]
    }
  }

  predicate Valid(rs: seq<Report>) {
    forall r <- rs :: r.Valid()
  }

  function Write(rs: seq<Report>): seq<byte>
    requires Valid(rs)
  {
    if rs == [] then [] else rs[0].Write() + Write(rs[1..])
  }

  /** The buffer does not hold a complete report. */
  predicate Incomplete(buf: seq<byte>) {
    |buf| < REPORT_HDR || |buf| < REPORT_HDR + buf[8] as int
  }

  function First(buf: seq<byte>): (r: Report)
    requires !Incomplete(buf)
    ensures r.Valid()
  {
    Report(buf[0], buf[1], buf[2..8], buf[9..9 + buf[8]], Signed(buf[9 + buf[8]]))
  }

  /** The reports the loop delivers when `n` are announced. */
  function Deliver(buf: seq<byte>, n: nat): seq<Report> {
    if n == 0 || Incomplete(buf) then [] else [First(buf)] + Deliver(buf[REPORT_HDR + buf[8]..], n - 1)
  }

  /** Writing the first report gives back the bytes it was read from. */
  lemma WriteFirst(buf: seq<byte>)
    requires !Incomplete(buf)
    ensures First(buf).Write() == buf[..REPORT_HDR + buf[8]]
  {
  }

  lemma FirstOfWrite(r: Report, rest: seq<byte>)
    requires r.Valid()
    ensures !Incomplete(r.Write() + rest)
    ensures First(r.Write() + rest) == r && (r.Write() + rest)[|r.Write()|..] == rest
  {
  }

  lemma DeliverNone(buf: seq<byte>, n: nat)
    requires n == 0 || Incomplete(buf)
    ensures Deliver(buf, n) == []
  {
  }

  lemma DeliverNext(buf: seq<byte>, n: nat)
    requires n > 0 && !Incomplete(buf)
    ensures Deliver(buf, n) == [First(buf)] + Deliver(buf[REPORT_HDR + buf[8]..], n - 1)
  {
  }

  lemma DeliverHead(buf: seq<byte>, n: nat)
    requires Deliver(buf, n) != []
    ensures n > 0 && !Incomplete(buf) && Deliver(buf, n)[0] == First(buf)
    ensures Deliver(buf, n)[1..] == Deliver(buf[REPORT_HDR + buf[8]..], n - 1)
  {
  }

  lemma DeliverCons(r: Report, rest: seq<byte>, n: nat)
    requires r.Valid() && n > 0
    ensures Deliver(r.Write() + rest, n) == [r] + Deliver(rest, n - 1)
  {
    FirstOfWrite(r, rest);
    assert |r.Write()| == REPORT_HDR + (r.Write() + rest)[8] as int;
  }

  /** The loop inverts the serialiser: on the encoding of `rs` it delivers exactly `rs`, in order, when that
  many are announced, or when more are and no complete report follows. */
  lemma {:induction false} DeliverUndoesWrite(rs: seq<Report>, rest: seq<byte>, n: nat)
    requires Valid(rs) && (|rs| == n || (|rs| < n && Incomplete(rest)))
    ensures Deliver(Write(rs) + rest, n) == rs
  {
    hide Deliver, First, Incomplete;
    if rs == [] {
      DeliverNone(rest, n);
      assert Write(rs) + rest == rest;
    } else {
      assert Write(rs) + rest == rs[0].Write() + (Write(rs[1..]) + rest);
      DeliverCons(rs[0], Write(rs[1..]) + rest, n);
      DeliverUndoesWrite(rs[1..], rest, n - 1);
    }
  }

  /** On every buffer, the deliveries are the complete reports it starts with: as many as announced, or all
  there are. With `DeliverUndoesWrite`, this determines them. The bytes consumed lie within the buffer. */
  lemma {:induction false} DeliverIsMaximal(buf: seq<byte>, n: nat) returns (rest: seq<byte>)
    ensures var rs := Deliver(buf, n);
            && Valid(rs) && |rs| <= n && buf == Write(rs) + rest
            && (|rs| == n || Incomplete(rest))
  {
    if n == 0 || Incomplete(buf) {
      rest := buf;
    } else {
      rest := DeliverIsMaximal(buf[REPORT_HDR + buf[8]..], n - 1);
      WriteFirst(buf);
      var rs := Deliver(buf, n);
      assert rs[1..] == Deliver(buf[REPORT_HDR + buf[8]..], n - 1);
      assert buf == rs[0].Write() + (Write(rs[1..]) + rest);
    }
  }

  /** How many of the reports fit in `len` bytes. */
  function Fitting(rs: seq<Report>, len: nat): (k: nat)
    requires Valid(rs)
    ensures k <= |rs|
  {
    if rs == [] || len < REPORT_HDR + |rs[0].data| then 0
    else 1 + Fitting(rs[1..], len - REPORT_HDR - |rs[0].data|)
  }

  lemma CutIsIncomplete(r: Report, rest: seq<byte>, len: nat)
    requires r.Valid() && len < |r.Write()|
    ensures Incomplete((r.Write() + rest)[..len])
  {
  }

  /** On a truncated encoding, the loop delivers the reports that are still complete. */
  lemma {:induction false} DeliverTruncated(rs: seq<Report>, len: nat)
    requires Valid(rs) && len <= |Write(rs)|
    ensures Deliver(Write(rs)[..len], |rs|) == rs[..Fitting(rs, len)]
  {
    hide Deliver, First, Incomplete;
    if rs == [] {
      DeliverNone([], 0);
    } else {
      var w, rest := rs[0].Write(), Write(rs[1..]);
      if len < |w| {
        CutIsIncomplete(rs[0], rest, len);
        DeliverNone((w + rest)[..len], |rs|);
      } else {
        var cut := rest[..len - |w|];
        assert Write(rs)[..len] == w + cut;
        DeliverCons(rs[0], cut, |rs|);
        DeliverTruncated(rs[1..], len - |w|);
        var k := Fitting(rs[1..], len - |w|);
        assert Fitting(rs, len) == 1 + k;
        assert [rs[0]] + rs[1..][..k] == rs[..1 + k];
      }
    }
  }
}

module HciPath {
  import opened Bytes
  import opened DriverModel
  import opened AdvReports
  import AdStructures
  import EnoceanDriver

  const HCI_EVENT_PKT: byte := 0x04
  const EVT_LE_META: byte := 0x3E
  const LE_ADV_REPORT_EVT: byte := 0x02
  const MIN_EVENT := 16

  /** The advertisement a report hands to the driver; the byte after its data is its signal strength. */
  function ToAdvert(r: Report): Advert {
    Advert(r.addr, r.addrType, r.advType, r.rssi, r.data, Unsigned(r.rssi))
  }

  function ToInputs(rs: seq<Report>): (inputs: seq<Input>)
    ensures |inputs| == |rs|
  {
    seq(|rs|, i requires 0 <= i < |rs| => Receive(ToAdvert(rs[i])))
  }

  lemma ToInputsSnoc(rs: seq<Report>, r: Report)
    ensures ToInputs(rs + [r]) == ToInputs(rs) + [Receive(ToAdvert(r))]
  {
  }

  /** The header announces advertising reports. */
  predicate IsReportEvent(event: seq<byte>) {
    |event| >= 5 && event[0] == HCI_EVENT_PKT && event[1] == EVT_LE_META && event[3] == LE_ADV_REPORT_EVT
  }

  /** The complete reports of an event, up to the announced number; none when more than fifteen are announced. */
  function ReportsOf(event: seq<byte>): seq<Report> {
    if !IsReportEvent(event) || event[4] > MAX_REPORTS then [] else Deliver(event[5..], event[4])
  }

  /** The event that announces and carries `rs`; `length` is its parameter length byte, which is not read. */
  function EventOf(length: byte, rs: seq<Report>): seq<byte>
    requires AdvReports.Valid(rs) && |rs| <= 255
  {
    [HCI_EVENT_PKT, EVT_LE_META, length, LE_ADV_REPORT_EVT, |rs|] + AdvReports.Write(rs)
  }

  /** Reading an event gives back the reports written into it, unless they are more than fifteen. */
  lemma EventRoundTrip(length: byte, rs: seq<Report>)
    requires AdvReports.Valid(rs) && |rs| <= 255
    ensures ReportsOf(EventOf(length, rs)) == if |rs| <= MAX_REPORTS then rs else []
  {
    hide Deliver, AdvReports.Write;
    var event := EventOf(length, rs);
    assert event[5..] == AdvReports.Write(rs) + [];
    DeliverUndoesWrite(rs, [], |rs|);
  }

  /** Since state `s0` and trace `t0`, the driver has processed exactly the reports `rs`, in order. */
  ghost predicate Followed(driver: EnoceanDriver.Driver, s0: State, t0: seq<Event>, rs: seq<Report>)
    reads driver, driver.devices
  {
    && driver.Valid()
    && var (s, t) := Run(driver.env, s0, ToInputs(rs)); driver.Abstract() == s && driver.trace == t0 + t
  }

  lemma FollowedAtStart(driver: EnoceanDriver.Driver)
    requires driver.Valid()
    ensures Followed(driver, driver.Abstract(), driver.trace, [])
  {
  }

  /** The callback that the application registers: it forwards one report to the driver. */
  method AdvertisementCallback(driver: EnoceanDriver.Driver, a: Advert,
                               ghost s0: State, ghost t0: seq<Event>, ghost rs: seq<Report>, ghost r: Report)
    requires Followed(driver, s0, t0, rs) && a == ToAdvert(r)
    modifies driver, driver.devices
    ensures Followed(driver, s0, t0, rs + [r])
  {
    hide Step, Run;
    driver.ProcessAdvertisement(a);
    RunSnoc(driver.env, s0, ToInputs(rs), Receive(a));
    ToInputsSnoc(rs, r);
    ghost var before := Run(driver.env, s0, ToInputs(rs));
    ghost var step := Step(driver.env, before.0, Receive(a));
    assert t0 + before.1 + step.1 == t0 + (before.1 + step.1);
  }

  /** The spans and bytes the loop hands to the callback. The byte after the data span is the signal strength. */
  function AdvertAt(report: seq<byte>, ptr: nat, dataLen: nat): Advert
    requires ptr + REPORT_HDR + dataLen <= |report|
  {
    var rssi := report[ptr + 9 + dataLen];
    Advert(report[ptr + 2..ptr + 8], report[ptr + 1], report[ptr], Signed(rssi),
           report[ptr + 9..ptr + 9 + dataLen], rssi)
  }

  /** They are those of the report at `ptr`. */
  lemma ReportInBuffer(report: seq<byte>, ptr: nat)
    requires ptr <= |report| && !Incomplete(report[ptr..])
    ensures AdvertAt(report, ptr, report[ptr + 8]) == ToAdvert(First(report[ptr..]))
  {
  }

  /** The parsing loop, for reports that are there and a driver that is registered. */
  method ForwardReports(report: seq<byte>, numReports: byte, driver: EnoceanDriver.Driver)
    requires driver.Valid()
    modifies driver, driver.devices
    ensures Followed(driver, old(driver.Abstract()), old(driver.trace), Deliver(report, numReports))
  {
    hide Followed, First, AdvertAt, ToAdvert, Deliver;
    ghost var s0, t0 := driver.Abstract(), driver.trace;
    ghost var done: seq<Report> := [];
    FollowedAtStart(driver);
    var ptr := 0;
    var r := 0;
    ghost var total := Deliver(report, numReports);
    assert report[0..] == report;
    while r < numReports
      invariant 0 <= ptr <= |report| && 0 <= r <= numReports
      invariant total == done + Deliver(report[ptr..], numReports - r)
      invariant Followed(driver, s0, t0, done)
    {
      ghost var rest := report[ptr..];
      if ptr + REPORT_HDR > |report| {
        DeliverNone(rest, numReports - r);
        break;
      }
      var dataLen := report[ptr + 8] as int;
      if ptr + REPORT_HDR + dataLen > |report| {
        DeliverNone(rest, numReports - r);
        break;
      }
      DeliverNext(rest, numReports - r);
      var rssiPtr := ptr + 9 + dataLen;
      var a := AdvertAt(report, ptr, dataLen);
      ReportInBuffer(report, ptr);
      AdvertisementCallback(driver, a, s0, t0, done, First(rest));
      done := done + [First(rest)];
      ptr := rssiPtr + 1;
      r := r + 1;
      assert rest[REPORT_HDR + dataLen..] == report[ptr..];
    }
    DeliverNone(report[ptr..], 0);
    assert total == done;
  }

  /** What the driver object occupies; nothing when no callback is registered. */
  ghost function Footprint(driver: EnoceanDriver.Driver?): set<object> {
    if driver == null then {} else {driver, driver.devices}
  }

  /** The reports of one event go to the registered driver. Without reports, without a driver, or when more than
  fifteen reports are announced, nothing happens. */
  method DispatchAdvReport(report: Option<seq<byte>>, numReports: byte, driver: EnoceanDriver.Driver?)
    requires driver != null ==> driver.Valid()
    modifies Footprint(driver)
    ensures driver != null
            ==> Followed(driver, old(driver.Abstract()), old(driver.trace),
                         if report.None? || numReports > MAX_REPORTS then [] else Deliver(report.value, numReports))
  {
    if driver == null {
      return;
    }
    FollowedAtStart(driver);
    hide Followed;
    if report.None? {
      return;
    }
    if numReports > MAX_REPORTS {
      return;
    }
    ForwardReports(report.value, numReports, driver);
  }

  lemma ShortEventFollowed(driver: EnoceanDriver.Driver, event: seq<byte>)
    requires driver.Valid() && |event| < MIN_EVENT
    ensures Followed(driver, driver.Abstract(), driver.trace, ReportsOf(event))
  {
    ShortEventIsHarmless(driver.env, driver.Abstract(), event);
    assert driver.trace + [] == driver.trace;
  }

  /** One event read from the socket acts on the driver as the in-order run over its complete reports. */
  method HandleEvent(event: seq<byte>, driver: EnoceanDriver.Driver?)
    requires driver != null ==> driver.Valid()
    modifies Footprint(driver)
    ensures driver != null
            ==> Followed(driver, old(driver.Abstract()), old(driver.trace), ReportsOf(event))
  {
    hide Followed;
    if |event| < MIN_EVENT {
      if driver != null {
        ShortEventFollowed(driver, event);
      }
      return;
    }
    if driver != null {
      FollowedAtStart(driver);
    }
    if event[0] != HCI_EVENT_PKT {
      return;
    }
    if event[1] != EVT_LE_META {
      return;
    }
    if event[3] != LE_ADV_REPORT_EVT {
      return;
    }
    if event[4] == 0 {
      return;
    }
    DispatchAdvReport(Some(event[5..]), event[4], driver);
  }

  lemma StepIgnoresEmptyData(env: Env, s: State, r: Report)
    requires r.data == []
    ensures Step(env, s, Receive(ToAdvert(r))) == (s, [])
  {
    assert Payload(ToAdvert(r)) == [];
  }

  lemma EmptyDataIsIgnored(env: Env, s: State, r: Report)
    requires r.data == []
    ensures Run(env, s, ToInputs([r])) == (s, [])
  {
    StepIgnoresEmptyData(env, s, r);
    hide Step;
    assert ToInputs([r]) == [] + [Receive(ToAdvert(r))];
    RunSnoc(env, s, [], Receive(ToAdvert(r)));
    var none: seq<Event> := [];
    assert none + none == none;
  }

  /** The scan loop's minimum length drops only events that would not have changed the driver. */
  lemma ShortEventIsHarmless(env: Env, s: State, event: seq<byte>)
    requires |event| < MIN_EVENT
    ensures Run(env, s, ToInputs(ReportsOf(event))) == (s, [])
  {
    var rs := ReportsOf(event);
    if rs == [] {
      assert ToInputs(rs) == [];
    } else {
      var buf := event[5..];
      assert |buf| == 10 && buf[8] == 0;
      assert buf[10..] == [];
      assert rs == [First(buf)] + Deliver(buf[10..], event[4] - 1) == [First(buf)];
      EmptyDataIsIgnored(env, s, rs[0]);
    }
  }
}
