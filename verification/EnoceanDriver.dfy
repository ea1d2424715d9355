/** The driver object: a fixed array of device slots updated in place, proved against the abstract machine
of module DriverModel. */
module EnoceanDriver {
  import opened Bytes
  import opened DriverModel
  import AdStructures
  import SensorTlv

  /** A slot of the device table. */
  datatype Device = Device(
    addr: Octets,
    addrType: byte,
    key: Octets,
    seqNum: word,
    rssi: int8,
    kind: DeviceType,
    active: bool)

  const EMPTY_SLOT := Device([0, 0, 0, 0, 0, 0], 0, seq(KEY_LEN, _ => 0), 0, 0, Unknown, false)

  function EntryOf(d: Device): Entry {
    Entry(d.addrType, d.key, d.seqNum, d.rssi, d.kind)
  }

  // ------------------------------------------------------------------ Slots as a table

  predicate SlotValid(d: Device) {
    && d.active
    && |d.addr| == ADDR_LEN && |d.key| == KEY_LEN
    && d.kind == DetectDeviceType(d.addr)
  }

  predicate Distinct(slots: seq<Device>) {
    forall i, j | 0 <= i < j < |slots| :: slots[i].addr != slots[j].addr
  }

  /** The table that slots with distinct addresses represent. */
  ghost function TableOf(slots: seq<Device>): (t: map<Octets, Entry>)
    requires Distinct(slots)
  {
    if slots == [] then map[]
    else TableOf(slots[..|slots| - 1])[slots[|slots| - 1].addr := EntryOf(slots[|slots| - 1])]
  }

  /** Some slot holds the address. */
  ghost predicate Holds(slots: seq<Device>, a: Octets) {
    exists d <- slots :: d.addr == a
  }

  lemma HoldsSnoc(slots: seq<Device>, a: Octets)
    requires slots != []
    ensures Holds(slots, a) <==> Holds(slots[..|slots| - 1], a) || slots[|slots| - 1].addr == a
  {
  }

  lemma {:induction false} TableKeys(slots: seq<Device>, a: Octets)
    requires Distinct(slots)
    ensures a in TableOf(slots) <==> Holds(slots, a)
  {
    if slots != [] {
      TableKeys(slots[..|slots| - 1], a);
      HoldsSnoc(slots, a);
    }
  }

  lemma {:induction false} TableSize(slots: seq<Device>)
    requires Distinct(slots)
    ensures |TableOf(slots)| == |slots|
  {
    if slots != [] {
      var n := |slots| - 1;
      TableSize(slots[..n]);
      TableKeys(slots[..n], slots[n].addr);
    }
  }

  lemma {:induction false} TableEntry(slots: seq<Device>, i: nat)
    requires Distinct(slots) && i < |slots|
    ensures slots[i].addr in TableOf(slots) && TableOf(slots)[slots[i].addr] == EntryOf(slots[i])
  {
    var n := |slots| - 1;
    if i < n {
      TableEntry(slots[..n], i);
      assert slots[..n][i] == slots[i];
    }
  }

  lemma TableAppend(slots: seq<Device>, d: Device)
    requires Distinct(slots + [d])
    ensures Distinct(slots)
    ensures TableOf(slots + [d]) == TableOf(slots)[d.addr := EntryOf(d)]
  {
    forall i, j | 0 <= i < j < |slots| ensures slots[i].addr != slots[j].addr {
      assert (slots + [d])[i].addr != (slots + [d])[j].addr;
    }
    assert (slots + [d])[..|slots + [d]| - 1] == slots;
  }

  lemma {:induction false} TableUpdate(slots: seq<Device>, i: nat, d: Device)
    requires Distinct(slots) && i < |slots| && d.addr == slots[i].addr
    ensures Distinct(slots[i := d])
    ensures TableOf(slots[i := d]) == TableOf(slots)[d.addr := EntryOf(d)]
  {
    var n := |slots| - 1;
    if i < n {
      TableUpdate(slots[..n], i, d);
      assert slots[i := d][..n] == slots[..n][i := d];
    } else {
      assert slots[i := d][..n] == slots[..n];
    }
  }

  // ------------------------------------------------------------------ The driver

  class Driver {
    const env: Env
    var initialised: bool
    var commissioningEnabled: bool
    const devices: array<Device>
    ghost var used: nat
    ghost var trace: seq<Event>

    /** The active slots form a prefix; they hold well-formed devices with distinct addresses. */
    ghost predicate Valid()
      reads this, devices
    {
      && devices.Length == MAX_DEVICES
      && used <= MAX_DEVICES
      && (forall i | used <= i < MAX_DEVICES :: !devices[i].active)
      && (forall i | 0 <= i < used :: SlotValid(devices[i]))
      && Distinct(devices[..used])
    }

    /** The abstract state. */
    ghost function Abstract(): State
      reads this, devices
      requires Valid()
    {
      State(initialised, commissioningEnabled, TableOf(devices[..used]))
    }

    constructor (env: Env)
      ensures Valid() && fresh(devices) && this.env == env
      ensures Abstract() == POWER_ON && trace == []
    {
      this.env := env;
      initialised := false;
      commissioningEnabled := false;
      devices := new Device[MAX_DEVICES](_ => EMPTY_SLOT);
      used := 0;
      trace := [];
    }

    method Init()
      requires Valid()
      modifies this, devices
      ensures Valid()
      ensures Abstract() == Step(env, old(Abstract()), DriverModel.Init).0
      ensures trace == old(trace) + Step(env, old(Abstract()), DriverModel.Init).1
      ensures initialised && !commissioningEnabled && Abstract() == State(true, false, map[])
    {
      var i := 0;
      while i < devices.Length
        invariant 0 <= i <= devices.Length
        invariant forall k | 0 <= k < i :: !devices[k].active
        invariant trace == old(trace)
      {
        devices[i] := EMPTY_SLOT;
        i := i + 1;
      }
      commissioningEnabled := false;
      initialised := true;
      used := 0;
      trace := trace + [Initialised];
    }

    method EnableCommissioning()
      requires Valid()
      modifies this
      ensures Valid()
      ensures Abstract() == Step(env, old(Abstract()), Enable).0
      ensures trace == old(trace) + Step(env, old(Abstract()), Enable).1
      ensures commissioningEnabled && Abstract() == old(Abstract()).(commissioning := true)
    {
      commissioningEnabled := true;
      trace := trace + [Enabled];
    }

    method DisableCommissioning()
      requires Valid()
      modifies this
      ensures Valid()
      ensures Abstract() == Step(env, old(Abstract()), Disable).0
      ensures trace == old(trace) + Step(env, old(Abstract()), Disable).1
      ensures !commissioningEnabled && Abstract() == old(Abstract()).(commissioning := false)
    {
      commissioningEnabled := false;
      trace := trace + [Disabled];
    }

    method CommissioningEnabled() returns (b: bool)
      requires Valid()
      ensures b == Abstract().commissioning
    {
      b := commissioningEnabled;
    }

    /** Counting the active slots gives the size of the table. */
    method DeviceCount() returns (count: nat)
      requires Valid()
      ensures count == |Abstract().table|
    {
      count := 0;
      var i := 0;
      while i < devices.Length
        invariant 0 <= i <= devices.Length
        invariant count == if i <= used then i else used
      {
        if devices[i].active {
          count := count + 1;
        }
        i := i + 1;
      }
      TableSize(devices[..used]);
    }

    /** Finds the first active slot whose address starts with `addr`; a whole address finds its entry. */
    method FindDevice(addr: Octets) returns (slot: Option<nat>)
      requires Valid() && |addr| <= ADDR_LEN
      ensures slot.Some? ==> slot.value < used && addr <= devices[slot.value].addr
      ensures forall k | 0 <= k < if slot.Some? then slot.value else used :: !(addr <= devices[k].addr)
      ensures |addr| == ADDR_LEN ==> (slot.Some? <==> addr in Abstract().table)
      ensures |addr| == ADDR_LEN && slot.Some?
              ==> devices[slot.value].addr == addr && Abstract().table[addr] == EntryOf(devices[slot.value])
    {
      var i := 0;
      while i < devices.Length
        invariant 0 <= i <= devices.Length
        invariant forall k | 0 <= k < i && k < used :: !(addr <= devices[k].addr)
      {
        if devices[i].active && addr <= devices[i].addr {
          assert devices[..used][i] == devices[i];
          TableEntry(devices[..used], i);
          assert |addr| == ADDR_LEN ==> addr == devices[i].addr;
          return Some(i);
        }
        i := i + 1;
      }
      slot := None;
      TableKeys(devices[..used], addr);
    }

    method AllocateDevice() returns (slot: Option<nat>)
      requires Valid()
      ensures slot == if used < MAX_DEVICES then Some(used) else None
    {
      var i := 0;
      while i < devices.Length
        invariant 0 <= i <= devices.Length
        invariant i <= used
      {
        if !devices[i].active {
          return Some(i);
        }
        i := i + 1;
      }
      slot := None;
    }

    /** Writing a device back into its slot updates the table at its address and nothing else. */
    method Overwrite(slot: nat, d: Device)
      requires Valid() && slot < used
      requires SlotValid(d) && d.addr == devices[slot].addr
      modifies devices
      ensures Valid() && devices[slot] == d
      ensures Abstract() == old(Abstract()).(table := old(Abstract()).table[d.addr := EntryOf(d)])
    {
      ghost var before := devices[..used];
      devices[slot] := d;
      assert devices[..used] == before[slot := d];
      TableUpdate(before, slot, d);
    }

    /** The sequence number of a payload: the driver's shift-or of its first four bytes. */
    static method ReadSequence(p: Octets) returns (s: word)
      requires |p| >= 4
      ensures s == SeqOf(p)
    {
      FourBytes(p[..4]);
      s := p[0] as int + 256 * p[1] as int + 65536 * p[2] as int + 16777216 * p[3] as int;
    }

    /** Splits a payload, builds the nonce and asks the crypto backend. */
    method Authenticate(dev: Device, s: word, p: Octets) returns (ok: bool)
      requires |dev.addr| == ADDR_LEN && |p| >= DATA_PAYLOAD_MIN && s == SeqOf(p)
      ensures ok == Authentic(env, dev.addr, EntryOf(dev), p)
    {
      var tagOffset := |p| - TAG_LEN;
      var nonce := new byte[NONCE_LEN];
      BuildNonce(dev.addr, s, nonce);
      ok := env.auth(dev.key, nonce[..], p[..tagOffset], p[tagOffset..]);
    }

    /** Storing an accepted sequence number. */
    method Accept(slot: nat, s: word, ghost accepted: Event)
      requires Valid() && slot < used
      modifies this, devices
      ensures Valid() && used == old(used) && devices[slot] == old(devices[slot]).(seqNum := s)
      ensures trace == old(trace) + [accepted]
      ensures var d := old(devices[slot]);
              Abstract() == old(Abstract()).(table := old(Abstract()).table[d.addr := EntryOf(d).(seqNum := s)])
    {
      Overwrite(slot, devices[slot].(seqNum := s));
      trace := trace + [accepted];
    }

    method HandleSwitch(slot: nat, p: Octets) returns (ok: bool)
      requires Valid() && slot < used
      modifies this, devices
      ensures Valid() && used == old(used)
      ensures var d := old(devices[slot]);
              var (e, events) := SwitchStep(env, d.addr, EntryOf(d), p);
              && Abstract() == old(Abstract()).(table := old(Abstract()).table[d.addr := e])
              && trace == old(trace) + events
              && (ok <==> events != [] && |p| != 12)
    {
      ghost var d := devices[slot];
      TableEntry(devices[..used], slot);
      hide TableOf, Distinct, SlotValid, SeqOf, Authentic;
      if |p| < DATA_PAYLOAD_MIN {
        return false;
      }
      var s := ReadSequence(p);
      if s <= devices[slot].seqNum {
        return false;
      }
      if |p| > SWITCH_PAYLOAD_MAX {
        return false;
      }
      var status := p[4];
      if status >= 32 {
        return false;
      }
      var authOk := Authenticate(devices[slot], s, p);
      if !authOk {
        return false;
      }
      Accept(slot, s, Acceptance(d.addr, EntryOf(d), p));
      assert EntryOf(devices[slot]) == EntryOf(d).(seqNum := s);
      var pressed := status % 2 == 1;
      var buttons := status / 2 % 16;
      var action := if pressed then Press else Release;
      var tagOffset := |p| - TAG_LEN;
      var optional: Octets := [];
      if tagOffset > 5 {
        var optLen := tagOffset - 5;
        if optLen != 1 && optLen != 2 && optLen != 4 {
          return false;
        }
        optional := p[5..tagOffset];
      }
      if env.onButton {
        trace := trace + [ButtonCall(d.addr, EntryOf(devices[slot]), action, buttons, optional)];
      }
      ok := true;
    }

    method HandleSensor(slot: nat, p: Octets) returns (ok: bool)
      requires Valid() && slot < used
      modifies this, devices
      ensures Valid() && used == old(used)
      ensures var d := old(devices[slot]);
              var (e, events) := SensorStep(env, d.addr, EntryOf(d), p);
              && Abstract() == old(Abstract()).(table := old(Abstract()).table[d.addr := e])
              && trace == old(trace) + events
              && (ok <==> events != [])
    {
      ghost var d := devices[slot];
      TableEntry(devices[..used], slot);
      hide TableOf, Distinct, SlotValid, SeqOf, Authentic;
      if |p| < DATA_PAYLOAD_MIN {
        return false;
      }
      var s := ReadSequence(p);
      if s <= devices[slot].seqNum {
        return false;
      }
      var authOk := Authenticate(devices[slot], s, p);
      if !authOk {
        return false;
      }
      Accept(slot, s, Acceptance(d.addr, EntryOf(d), p));
      var data := SensorTlv.DecodeSensorData(p[4..|p| - TAG_LEN]);
      if env.onSensor {
        trace := trace + [SensorCall(d.addr, EntryOf(devices[slot]), data)];
      }
      ok := true;
    }

    /** Filling the first free slot with a new device. */
    method Insert(slot: nat, d: Device)
      requires Valid() && slot == used < MAX_DEVICES
      requires SlotValid(d) && d.addr !in Abstract().table
      modifies this, devices
      ensures Valid()
      ensures Abstract() == old(Abstract()).(table := old(Abstract()).table[d.addr := EntryOf(d)])
      ensures trace == old(trace) + [Paired(d.addr, d.key, d.seqNum)]
                       + if env.onCommissioned then [CommissionedCall(d.addr, EntryOf(d))] else []
    {
      ghost var before := devices[..used];
      forall i | 0 <= i < used ensures before[i].addr != d.addr {
        TableEntry(before, i);
      }
      devices[slot] := d;
      used := used + 1;
      assert devices[..used] == before + [d];
      TableAppend(before, d);
      trace := trace + [Paired(d.addr, d.key, d.seqNum)];
      if env.onCommissioned {
        trace := trace + [CommissionedCall(d.addr, EntryOf(d))];
      }
    }

    /** Refreshing key, sequence number and signal strength of a known device. */
    method Rekey(slot: nat, key: Octets, s: word, rssi: int8)
      requires Valid() && slot < used && |key| == KEY_LEN
      modifies this, devices
      ensures Valid()
      ensures var d := old(devices[slot]);
              var e := EntryOf(d).(key := key, seqNum := s, rssi := rssi);
              && Abstract() == old(Abstract()).(table := old(Abstract()).table[d.addr := e])
              && trace == old(trace) + [Rekeyed(d.addr, key, s)]
    {
      Overwrite(slot, devices[slot].(seqNum := s, rssi := rssi, key := key));
      trace := trace + [Rekeyed(devices[slot].addr, key, s)];
    }

    /** Where a commissioning payload holds its key: the format is told by length and marker, and a sensor must
    use the marked one. */
    static method LocateKey(addr: Octets, p: Octets) returns (offset: Option<nat>)
      ensures offset == KeyOffset(addr, p)
    {
      if |p| < COMMISSIONING_PAYLOAD_MIN {
        return None;
      }
      var kind := DetectDeviceType(addr);
      var stmFormat := |p| == STM_PAYLOAD_LEN && p[4] == STM_MARKER;
      var keyOffset := if stmFormat then 5 else 4;
      if kind == Sensor && !stmFormat {
        return None;
      }
      // The key always fits: 4 + 16 <= 22 and 5 + 16 <= 27.
      offset := Some(keyOffset);
    }

    method HandleCommissioning(addr: Octets, addrType: byte, rssi: int8, p: Octets) returns (ok: bool)
      requires Valid() && |addr| == ADDR_LEN
      modifies this, devices
      ensures Valid()
      ensures var (s, events) := CommissionStep(env, old(Abstract()), addr, addrType, rssi, p);
              Abstract() == s && trace == old(trace) + events && (ok <==> events != [])
    {
      TableSize(devices[..used]);
      hide TableOf, Distinct, SeqOf, DetectDeviceType, KeyOffset;
      var offset := LocateKey(addr, p);
      if offset.None? {
        return false;
      }
      var s := ReadSequence(p);
      var key := p[offset.value..offset.value + KEY_LEN];
      var found := FindDevice(addr);
      if found.Some? {
        var slot := found.value;
        Rekey(slot, key, s, rssi);
        return true;
      }
      var free := AllocateDevice();
      if free.None? {
        return false;
      }
      var d := Device(addr, addrType, key, s, rssi, DetectDeviceType(addr), true);
      Insert(free.value, d);
      ok := true;
    }

    /** A data telegram for the device in a slot. */
    method HandleKnown(slot: nat, rssi: int8, p: Octets)
      requires Valid() && slot < used
      modifies this, devices
      ensures Valid()
      ensures var d := old(devices[slot]);
              var (e, events) := DataStep(env, d.addr, EntryOf(d), rssi, p);
              && Abstract() == old(Abstract()).(table := old(Abstract()).table[d.addr := e])
              && trace == old(trace) + events
    {
      hide TableOf, Distinct, SwitchStep, SensorStep;
      ghost var t := Abstract().table;
      ghost var addr := devices[slot].addr;
      Overwrite(slot, devices[slot].(rssi := rssi));
      ghost var heard := EntryOf(devices[slot]);
      if devices[slot].kind == Switch {
        var _ := HandleSwitch(slot, p);
      } else {
        var _ := HandleSensor(slot, p);
      }
      assert Abstract().table == t[addr := heard][addr := Abstract().table[addr]] == t[addr := Abstract().table[addr]];
    }

    /** One advertisement is one step of the abstract machine: same table, same flags, same trace. */
    method ProcessAdvertisement(a: Advert)
      requires Valid()
      modifies this, devices
      ensures Valid()
      ensures Abstract() == Step(env, old(Abstract()), Receive(a)).0
      ensures trace == old(trace) + Step(env, old(Abstract()), Receive(a)).1
    {
      if !initialised {
        return;
      }
      if |a.addr| != ADDR_LEN {
        return;
      }
      if a.advType != ADV_NONCONN_IND || a.addrType != ADDR_RANDOM {
        return;
      }
      var payload, _ := AdStructures.ExtractManufacturerData(a.data, a.after);
      if payload == [] {
        return;
      }
      if |payload| < DATA_PAYLOAD_MIN {
        return;
      }
      var found := FindDevice(a.addr);
      hide TableOf, Distinct, DataStep, CommissionStep;
      if found.Some? {
        var slot := found.value;
        HandleKnown(slot, a.rssi, payload);
        return;
      }
      if |payload| >= COMMISSIONING_PAYLOAD_MIN && commissioningEnabled {
        var _ := HandleCommissioning(a.addr, a.addrType, a.rssi, payload);
      }
    }
  }

  /** Refinement over whole runs: from power-on, any sequence of calls takes the slot array to the table of the
  abstract machine and leaves the same trace. */
  method Replay(env: Env, inputs: seq<Input>) returns (d: Driver)
    ensures fresh(d) && d.Valid() && d.env == env
    ensures d.Abstract() == Run(env, POWER_ON, inputs).0
    ensures d.trace == Run(env, POWER_ON, inputs).1
  {
    hide Step;
    d := new Driver(env);
    var i := 0;
    while i < |inputs|
      invariant 0 <= i <= |inputs| && d.Valid() && fresh(d) && fresh(d.devices) && d.env == env
      invariant d.Abstract() == Run(env, POWER_ON, inputs[..i]).0
      invariant d.trace == Run(env, POWER_ON, inputs[..i]).1
    {
      match inputs[i] {
        case Init => d.Init();
        case Enable => d.EnableCommissioning();
        case Disable => d.DisableCommissioning();
        case Receive(a) => d.ProcessAdvertisement(a);
      }
      RunSnoc(env, POWER_ON, inputs[..i], inputs[i]);
      assert inputs[..i + 1] == inputs[..i] + [inputs[i]];
      i := i + 1;
    }
    assert inputs[..i] == inputs;
  }
}
