/** What holds over whole runs of the driver: where events come from, that accepted nonces never repeat
between initialisations, how often a device can be accepted, and that devices do not influence each other. */
module DriverRuns {
  import opened Bytes
  import opened DriverModel
  import SensorTlv
  import Telegrams

  // ------------------------------------------------------------------ Runs

  lemma {:induction false} RunAppend(env: Env, s: State, xs: seq<Input>, ys: seq<Input>)
    ensures var (s1, t1) := Run(env, s, xs);
            var (s2, t2) := Run(env, s1, ys);
            Run(env, s, xs + ys) == (s2, t1 + t2)
  {
    if ys == [] {
      assert xs + ys == xs;
      var r := Run(env, s, xs);
      assert r.1 + [] == r.1;
    } else {
      hide Step;
      var n := |ys| - 1;
      RunAppend(env, s, xs, ys[..n]);
      assert xs + ys == (xs + ys[..n]) + [ys[n]];
      RunSnoc(env, s, xs + ys[..n], ys[n]);
      var r := Run(env, s, xs);
      var m := Run(env, r.0, ys[..n]);
      var l := Step(env, m.0, ys[n]);
      assert Run(env, r.0, ys) == (l.0, m.1 + l.1);
      assert r.1 + m.1 + l.1 == r.1 + (m.1 + l.1);
    }
  }

  predicate InitFree(inputs: seq<Input>) {
    forall i <- inputs :: !i.Init?
  }

  /** The initialised flag and all entries are kept with their keys, types and address types, and no sequence
  number decreases. */
  predicate Extends(s: State, t: State) {
    && s.initialised == t.initialised
    && s.table.Keys <= t.table.Keys
    && forall a | a in s.table ::
         && t.table[a].key == s.table[a].key
         && t.table[a].kind == s.table[a].kind
         && t.table[a].addrType == s.table[a].addrType
         && t.table[a].seqNum >= s.table[a].seqNum
  }

  lemma StepExtends(env: Env, s: State, input: Input)
    requires !input.Init?
    ensures Extends(s, Step(env, s, input).0)
    ensures |Step(env, s, input).0.table| <= |s.table| + 1
  {
    if input.Receive? && Relevant(s, input.advert) {
      var a := input.advert.addr;
      var t := Step(env, s, input).0;
      if a in s.table {
        assert t.table.Keys == s.table.Keys;
      } else {
        assert t.table == s.table || t.table.Keys == s.table.Keys + {a};
      }
    }
  }

  lemma {:induction false} RunExtends(env: Env, s: State, inputs: seq<Input>)
    requires InitFree(inputs)
    ensures Extends(s, Run(env, s, inputs).0)
  {
    if inputs != [] {
      hide Step;
      var before := inputs[..|inputs| - 1];
      RunExtends(env, s, before);
      StepExtends(env, Run(env, s, before).0, inputs[|before|]);
    }
  }

  // ------------------------------------------------------------------ Reading a trace

  /** The events since the last initialisation. */
  function Epoch(t: seq<Event>): (e: seq<Event>)
    ensures forall x <- e :: !x.Initialised?
  {
    if t == [] || t[|t| - 1].Initialised? then [] else Epoch(t[..|t| - 1]) + [t[|t| - 1]]
  }

  /** Commissioning is enabled after the events `e` of one epoch. */
  predicate CommissioningOn(e: seq<Event>) {
    e != [] &&
    match e[|e| - 1]
    case Enabled => true
    case Disabled | Initialised => false
    case _ => CommissioningOn(e[..|e| - 1])
  }

  predicate AcceptedFrom(x: Event, a: Octets) {
    x.Accepted? && x.addr == a
  }

  /** Event `j` commissions address `a` with `key`, while commissioning is enabled. */
  predicate Commissions(e: seq<Event>, j: nat, a: Octets, key: Octets)
    requires j < |e|
  {
    e[j].Paired? && e[j].addr == a && e[j].key == key && CommissioningOn(e[..j])
  }

  function CountAccepted(e: seq<Event>, a: Octets): nat {
    if e == [] then 0
    else CountAccepted(e[..|e| - 1], a) + if AcceptedFrom(e[|e| - 1], a) then 1 else 0
  }

  /** The last event is the acceptance that the callback for address `a` and entry `d` reports. */
  predicate ReportsLast(e: seq<Event>, a: Octets, d: Entry) {
    e != [] &&
    var x := e[|e| - 1];
    x.Accepted? && x.addr == a && x.key == d.key && x.seqNum == d.seqNum && |x.aad| >= 5
  }

  /** What must have happened in the epoch `e` for event `x` to be legitimate. */
  ghost predicate Justified(env: Env, e: seq<Event>, x: Event) {
    match x
    case Accepted(a, key, s, nonce, aad, tag) =>
      // The tag verified under the key of a commissioning step taken while commissioning was enabled, with
      // the nonce of this address and sequence number; the sequence number is new.
      && |a| == ADDR_LEN && nonce == Nonce(a, s)
      && |aad| >= 5 && aad[..4] == ToLE(s, 4)
      && env.auth(key, nonce, aad, tag)
      && (exists j :: 0 <= j < |e| && Commissions(e, j, a, key) && e[j].seqNum < s)
      && (forall m | 0 <= m < |e| && AcceptedFrom(e[m], a) :: e[m].seqNum < s)
    case ButtonCall(a, d, action, buttons, optional) =>
      // The event is read off the bytes just authenticated.
      && ReportsLast(e, a, d)
      && var aad := e[|e| - 1].aad;
         && aad[4] < 32 && action == ActionOf(aad[4]) && buttons == aad[4] / 2 % 16
         && optional == aad[5..] && |optional| in {0, 1, 2, 4}
    case SensorCall(a, d, data) =>
      && ReportsLast(e, a, d)
      && data == SensorTlv.Decode(e[|e| - 1].aad[4..], SensorTlv.NOTHING)
    case CommissionedCall(a, d) =>
      e != [] && e[|e| - 1] == Paired(a, d.key, d.seqNum)
    case Paired(a, key, s) =>
      CommissioningOn(e) && forall m | 0 <= m < |e| && e[m].Paired? :: e[m].addr != a
    case Rekeyed(_, _, _) => false
    case _ => true
  }

  /** Every event of the trace is justified by the epoch before it. */
  ghost predicate Lawful(env: Env, t: seq<Event>) {
    forall k | 0 <= k < |t| :: Justified(env, Epoch(t[..k]), t[k])
  }

  lemma LawfulSnoc(env: Env, t: seq<Event>, x: Event)
    requires Lawful(env, t) && Justified(env, Epoch(t), x)
    ensures Lawful(env, t + [x])
  {
    hide Justified;
    var u := t + [x];
    forall k | 0 <= k < |u| ensures Justified(env, Epoch(u[..k]), u[k]) {
      if k < |t| {
        assert u[..k] == t[..k];
      } else {
        assert u[..k] == t;
      }
    }
  }

  lemma EpochSnoc(t: seq<Event>, x: Event)
    ensures Epoch(t + [x]) == if x.Initialised? then [] else Epoch(t) + [x]
  {
  }

  // ------------------------------------------------------------------ The state and the trace

  predicate PairedAs(x: Event, a: Octets) {
    x.Paired? && x.addr == a
  }

  /** The event stores a sequence number for `a`: it commissions `a` or accepts a telegram from it. */
  predicate Numbers(x: Event, a: Octets) {
    PairedAs(x, a) || AcceptedFrom(x, a)
  }

  /** The sequence number stored last: the last accepted one or, when none was, the commissioned one. */
  function LastNumber(e: seq<Event>, a: Octets): Option<word> {
    if e == [] then None
    else if Numbers(e[|e| - 1], a) then Some(e[|e| - 1].seqNum)
    else LastNumber(e[..|e| - 1], a)
  }

  /** What the epoch says about the entry of a commissioned address: its key is the commissioned one, and its
  sequence number is the last one stored, the largest one, and a bound on the number of acceptances. */
  ghost predicate Grant(e: seq<Event>, a: Octets, d: Entry) {
    && LastNumber(e, a) == Some(d.seqNum)
    && (exists j :: 0 <= j < |e| && Commissions(e, j, a, d.key) && e[j].seqNum as int + CountAccepted(e, a) <= d.seqNum)
    && (forall m | 0 <= m < |e| && Numbers(e[m], a) :: e[m].seqNum <= d.seqNum)
    && (forall m | 0 <= m < |e| && PairedAs(e[m], a) :: e[m].key == d.key)
  }

  ghost predicate Untouched(e: seq<Event>, a: Octets) {
    forall m | 0 <= m < |e| :: !Numbers(e[m], a)
  }

  /** The state agrees with the epoch. */
  ghost predicate Agrees(s: State, e: seq<Event>) {
    && s.commissioning == CommissioningOn(e)
    && (forall a | a in s.table :: Grant(e, a, s.table[a]))
    && (forall a | a !in s.table :: Untouched(e, a))
  }

  lemma CommissionsSnoc(e: seq<Event>, x: Event, j: nat, a: Octets, key: Octets)
    requires j < |e| && Commissions(e, j, a, key)
    ensures Commissions(e + [x], j, a, key)
  {
    assert (e + [x])[..j] == e[..j];
  }

  /** An event that stores no sequence number for `a` leaves its grant alone. */
  lemma GrantKept(e: seq<Event>, x: Event, a: Octets, d: Entry)
    requires Grant(e, a, d) && !Numbers(x, a)
    ensures Grant(e + [x], a, d)
  {
    var j :| 0 <= j < |e| && Commissions(e, j, a, d.key) && e[j].seqNum as int + CountAccepted(e, a) <= d.seqNum;
    CommissionsSnoc(e, x, j, a, d.key);
    assert (e + [x])[..|e + [x]| - 1] == e;
    assert (e + [x])[j] == e[j];
  }

  /** Accepting a new sequence number advances the grant. */
  lemma GrantAdvanced(e: seq<Event>, x: Event, a: Octets, d: Entry, d': Entry)
    requires Grant(e, a, d) && AcceptedFrom(x, a) && d'.key == d.key
    requires d.seqNum < x.seqNum == d'.seqNum
    ensures Grant(e + [x], a, d')
  {
    var j :| 0 <= j < |e| && Commissions(e, j, a, d.key) && e[j].seqNum as int + CountAccepted(e, a) <= d.seqNum;
    CommissionsSnoc(e, x, j, a, d.key);
    assert (e + [x])[..|e + [x]| - 1] == e;
    assert (e + [x])[j] == e[j];
  }

  lemma CommissioningKept(e: seq<Event>, x: Event)
    requires !x.Initialised? && !x.Enabled? && !x.Disabled?
    ensures CommissioningOn(e + [x]) == CommissioningOn(e)
  {
    assert (e + [x])[..|e + [x]| - 1] == e;
  }

  /** Control calls and callbacks leave the table part of the agreement alone. */
  lemma QuietEvent(s: State, e: seq<Event>, x: Event)
    requires Agrees(s, e) && !x.Initialised? && !x.Accepted? && !x.Paired?
    ensures Agrees(s.(commissioning := CommissioningOn(e + [x])), e + [x])
    ensures !x.Enabled? && !x.Disabled? ==> CommissioningOn(e + [x]) == CommissioningOn(e)
  {
    hide Grant, CommissioningOn;
    if !x.Enabled? && !x.Disabled? {
      CommissioningKept(e, x);
    }
    forall a | a in s.table ensures Grant(e + [x], a, s.table[a]) {
      GrantKept(e, x, a, s.table[a]);
    }
  }

  /** An acceptance for a commissioned address. */
  lemma AcceptanceEvent(s: State, e: seq<Event>, a: Octets, d': Entry, x: Event)
    requires Agrees(s, e) && a in s.table && AcceptedFrom(x, a)
    requires d'.key == s.table[a].key && s.table[a].seqNum < x.seqNum == d'.seqNum
    ensures Agrees(s.(table := s.table[a := d']), e + [x])
  {
    hide Grant;
    assert (e + [x])[..|e + [x]| - 1] == e;
    GrantAdvanced(e, x, a, s.table[a], d');
    forall b | b in s.table && b != a ensures Grant(e + [x], b, s.table[b]) {
      GrantKept(e, x, b, s.table[b]);
    }
  }

  lemma {:induction false} UntouchedCount(e: seq<Event>, a: Octets)
    requires Untouched(e, a)
    ensures CountAccepted(e, a) == 0
  {
    if e != [] {
      UntouchedCount(e[..|e| - 1], a);
    }
  }

  /** A commissioning step for a new address. */
  lemma PairingEvent(s: State, e: seq<Event>, a: Octets, d: Entry)
    requires Agrees(s, e) && a !in s.table && s.commissioning
    ensures Agrees(s.(table := s.table[a := d]), e + [Paired(a, d.key, d.seqNum)])
  {
    var x := Paired(a, d.key, d.seqNum);
    var f := e + [x];
    assert f[..|f| - 1] == e;
    assert Grant(f, a, d) by {
      assert f[..|e|] == e;
      assert Commissions(f, |e|, a, d.key);
      UntouchedCount(e, a);
      assert CountAccepted(f, a) == 0;
    }
    forall b | b in s.table && b != a ensures Grant(f, b, s.table[b]) {
      GrantKept(e, x, b, s.table[b]);
    }
  }

  // ------------------------------------------------------------------ Every run is lawful

  /** The trace is lawful and the state agrees with it. */
  ghost predicate Sound(env: Env, s: State, t: seq<Event>) {
    Lawful(env, t) && Agrees(s, Epoch(t))
  }

  /** The state is well formed besides. */
  ghost predicate Consistent(env: Env, s: State, t: seq<Event>) {
    WellFormed(s) && Sound(env, s, t)
  }

  lemma ControlConsistent(env: Env, s: State, t: seq<Event>, input: Input)
    requires Consistent(env, s, t) && !input.Receive?
    ensures var (s', u) := Step(env, s, input); Consistent(env, s', t + u)
  {
    var (s', u) := Step(env, s, input);
    StepWellFormed(env, s, input);
    EpochSnoc(t, u[0]);
    LawfulSnoc(env, t, u[0]);
    if !input.Init? {
      QuietEvent(s, Epoch(t), u[0]);
      assert (Epoch(t) + [u[0]])[|Epoch(t)|] == u[0];
    }
  }

  /** An authenticated telegram for a commissioned address is justified. */
  lemma AcceptanceJustified(env: Env, s: State, e: seq<Event>, a: Octets, p: Octets)
    requires WellFormed(s) && Agrees(s, e) && a in s.table && |a| == ADDR_LEN && |p| >= DATA_PAYLOAD_MIN
    requires SeqOf(p) > s.table[a].seqNum && Authentic(env, a, s.table[a], p)
    ensures Justified(env, e, Acceptance(a, s.table[a], p))
  {
    SeqOfRoundTrip(p);
    assert Aad(p)[..4] == p[..4];
    var d := s.table[a];
    var j :| 0 <= j < |e| && Commissions(e, j, a, d.key) && e[j].seqNum as int + CountAccepted(e, a) <= d.seqNum;
    assert e[j].seqNum < SeqOf(p);
  }

  /** The callback after an acceptance reports the authenticated bytes. */
  lemma CallJustified(env: Env, e: seq<Event>, a: Octets, d: Entry, rssi: int8, p: Octets)
    requires |a| == ADDR_LEN && |p| >= DATA_PAYLOAD_MIN
    ensures var events := DataStep(env, a, d, rssi, p).1;
            |events| == 2 ==> Justified(env, e + [events[0]], events[1])
    ensures var events := DataStep(env, a, d, rssi, p).1;
            |events| <= 2 && (|events| == 2 ==> events[1].ButtonCall? || events[1].SensorCall?)
  {
    var events := DataStep(env, a, d, rssi, p).1;
    if |events| == 2 {
      var aad := events[0].aad;
      assert (e + [events[0]])[|e|] == events[0];
      assert aad[4] == p[4] && aad[4..] == p[4..|p| - TAG_LEN] && aad[5..] == p[5..|p| - TAG_LEN];
    }
  }

  /** A justified callback changes nothing. */
  lemma CallSound(env: Env, s: State, t: seq<Event>, x: Event)
    requires Sound(env, s, t) && Justified(env, Epoch(t), x)
    requires x.CommissionedCall? || x.ButtonCall? || x.SensorCall?
    ensures Sound(env, s, t + [x])
  {
    hide Justified;
    LawfulSnoc(env, t, x);
    EpochSnoc(t, x);
    QuietEvent(s, Epoch(t), x);
    assert s.(commissioning := CommissioningOn(Epoch(t) + [x])) == s;
  }

  lemma AcceptanceSound(env: Env, s: State, t: seq<Event>, a: Octets, p: Octets, d: Entry)
    requires WellFormed(s) && Sound(env, s, t) && a in s.table && |a| == ADDR_LEN && |p| >= DATA_PAYLOAD_MIN
    requires SeqOf(p) > s.table[a].seqNum && Authentic(env, a, s.table[a], p)
    requires d.key == s.table[a].key && d.seqNum == SeqOf(p)
    ensures Sound(env, s.(table := s.table[a := d]), t + [Acceptance(a, s.table[a], p)])
  {
    hide Justified;
    var x := Acceptance(a, s.table[a], p);
    AcceptanceJustified(env, s, Epoch(t), a, p);
    LawfulSnoc(env, t, x);
    EpochSnoc(t, x);
    AcceptanceEvent(s, Epoch(t), a, d, x);
  }

  lemma SignalSound(env: Env, s: State, t: seq<Event>, a: Octets, d: Entry)
    requires Sound(env, s, t) && a in s.table && d.key == s.table[a].key && d.seqNum == s.table[a].seqNum
    ensures Sound(env, s.(table := s.table[a := d]), t)
  {
  }

  /** The shapes a data telegram's outcome can take. */
  lemma DataCases(env: Env, a: Octets, d0: Entry, rssi: int8, p: Octets)
    requires |a| == ADDR_LEN && |p| >= DATA_PAYLOAD_MIN
    ensures var (d, u) := DataStep(env, a, d0, rssi, p);
            && d.key == d0.key
            && (u == [] ==> d.seqNum == d0.seqNum)
            && (u != [] ==> && u[0] == Acceptance(a, d0, p) && |u| <= 2
                            && SeqOf(p) > d0.seqNum && Authentic(env, a, d0, p) && d.seqNum == SeqOf(p))
  {
  }

  /** A data telegram for a commissioned address. */
  lemma DataSound(env: Env, s: State, t: seq<Event>, a: Octets, rssi: int8, p: Octets)
    requires WellFormed(s) && Sound(env, s, t) && a in s.table && |a| == ADDR_LEN && |p| >= DATA_PAYLOAD_MIN
    ensures var (d, u) := DataStep(env, a, s.table[a], rssi, p); Sound(env, s.(table := s.table[a := d]), t + u)
  {
    hide DataStep, Sound, Justified, WellFormed, Authentic, SeqOf, Epoch;
    var (d, u) := DataStep(env, a, s.table[a], rssi, p);
    var s' := s.(table := s.table[a := d]);
    DataCases(env, a, s.table[a], rssi, p);
    CallJustified(env, Epoch(t), a, s.table[a], rssi, p);
    if u == [] {
      assert t + u == t;
      SignalSound(env, s, t, a, d);
    } else {
      AcceptanceSound(env, s, t, a, p, d);
      if |u| == 1 {
        assert u == [u[0]];
      } else {
        EpochSnoc(t, u[0]);
        assert t + u == t + [u[0]] + [u[1]];
        CallSound(env, s', t + [u[0]], u[1]);
      }
    }
  }

  lemma PairingSound(env: Env, s: State, t: seq<Event>, a: Octets, d: Entry)
    requires Sound(env, s, t) && s.commissioning && a !in s.table
    ensures Sound(env, s.(table := s.table[a := d]), t + [Paired(a, d.key, d.seqNum)])
  {
    var x := Paired(a, d.key, d.seqNum);
    assert Justified(env, Epoch(t), x);
    PairingEvent(s, Epoch(t), a, d);
    LawfulSnoc(env, t, x);
    EpochSnoc(t, x);
  }

  /** A commissioning telegram for a new address. */
  lemma CommissionSound(env: Env, s: State, t: seq<Event>, a: Octets, addrType: byte, rssi: int8, p: Octets)
    requires Sound(env, s, t) && s.commissioning && a !in s.table
    ensures var (s', u) := CommissionStep(env, s, a, addrType, rssi, p); Sound(env, s', t + u)
  {
    hide Sound, Justified;
    var (s', u) := CommissionStep(env, s, a, addrType, rssi, p);
    if u == [] {
      assert t + u == t;
    } else {
      var d := s'.table[a];
      var x := Paired(a, d.key, d.seqNum);
      PairingSound(env, s, t, a, d);
      assert u == [x] || u == [x, CommissionedCall(a, d)];
      if |u| == 2 {
        EpochSnoc(t, x);
        CommissionedJustified(env, Epoch(t), a, d);
        assert t + u == t + [x] + [u[1]];
        CallSound(env, s', t + [x], u[1]);
      }
    }
  }

  lemma CommissionedJustified(env: Env, e: seq<Event>, a: Octets, d: Entry)
    ensures Justified(env, e + [Paired(a, d.key, d.seqNum)], CommissionedCall(a, d))
  {
  }

  lemma StepConsistent(env: Env, s: State, t: seq<Event>, input: Input)
    requires Consistent(env, s, t)
    ensures var (s', u) := Step(env, s, input); Consistent(env, s', t + u)
  {
    hide Agrees, Lawful, DataStep, CommissionStep, WellFormed;
    if !input.Receive? {
      ControlConsistent(env, s, t, input);
    } else {
      StepWellFormed(env, s, input);
      var a := input.advert;
      if Relevant(s, a) && a.addr in s.table {
        DataSound(env, s, t, a.addr, a.rssi, Payload(a));
      } else if Relevant(s, a) && |Payload(a)| >= COMMISSIONING_PAYLOAD_MIN && s.commissioning {
        CommissionSound(env, s, t, a.addr, a.addrType, a.rssi, Payload(a));
      } else {
        assert t + [] == t;
      }
    }
  }

  lemma PowerOnConsistent(env: Env)
    ensures Consistent(env, POWER_ON, [])
  {
  }

  /** Provenance: in every run from power-on, every event is justified by what happened since the last
  initialisation, and the table holds exactly the addresses commissioned since then, with the commissioned
  keys and the sequence numbers stored last. */
  lemma {:induction false} RunConsistent(env: Env, inputs: seq<Input>)
    ensures var (s, t) := Run(env, POWER_ON, inputs); Consistent(env, s, t)
  {
    hide Step, Consistent;
    if inputs == [] {
      PowerOnConsistent(env);
    } else {
      var before := inputs[..|inputs| - 1];
      RunConsistent(env, before);
      var (s, t) := Run(env, POWER_ON, before);
      StepConsistent(env, s, t, inputs[|before|]);
    }
  }

  // ------------------------------------------------------------------ What follows for every run

  /** No run replaces the key of a commissioned device: known addresses are routed to the data handlers before
  commissioning is considered. */
  lemma {:induction false} NeverRekeyed(env: Env, inputs: seq<Input>, k: nat)
    requires k < |Run(env, POWER_ON, inputs).1|
    ensures !Run(env, POWER_ON, inputs).1[k].Rekeyed?
  {
    RunConsistent(env, inputs);
    hide Run, Agrees, WellFormed;
    var t := Run(env, POWER_ON, inputs).1;
    assert Justified(env, Epoch(t[..k]), t[k]);
  }

  /** The epoch `e` ends with an acceptance for address `a` and entry `d`: the tag verified under the key of a
  commissioning step of that address taken while commissioning was enabled, and the sequence number exceeds
  that step's and every earlier accepted one. */
  ghost predicate Attested(env: Env, e: seq<Event>, a: Octets, d: Entry) {
    e != [] && |a| == ADDR_LEN &&
    var n := |e| - 1;
    && AcceptedFrom(e[n], a)
    && env.auth(d.key, Nonce(a, d.seqNum), e[n].aad, e[n].tag)
    && (exists j :: 0 <= j < n && Commissions(e, j, a, d.key) && e[j].seqNum < d.seqNum)
    && (forall m | 0 <= m < n && AcceptedFrom(e[m], a) :: e[m].seqNum < d.seqNum)
  }

  lemma AttestedSnoc(env: Env, before: seq<Event>, x: Event, a: Octets, d: Entry)
    requires Justified(env, before, x) && ReportsLast(before + [x], a, d)
    ensures Attested(env, before + [x], a, d)
  {
    var e := before + [x];
    var j :| 0 <= j < |before| && Commissions(before, j, a, d.key) && before[j].seqNum < d.seqNum;
    CommissionsSnoc(before, x, j, a, d.key);
    assert e[j] == before[j];
  }

  lemma CallAttested(env: Env, t: seq<Event>, k: nat)
    requires Lawful(env, t) && k < |t| && (t[k].ButtonCall? || t[k].SensorCall?)
    ensures Attested(env, Epoch(t[..k]), t[k].addr, t[k].device)
  {
    var e, a, d := Epoch(t[..k]), t[k].addr, t[k].device;
    assert Justified(env, e, t[k]);
    assert ReportsLast(e, a, d);
    var n := k - 1;
    assert Justified(env, Epoch(t[..n]), t[n]);
    hide Justified, Lawful, ReportsLast, Attested;
    assert t[..k] == t[..n] + [t[n]];
    EpochSnoc(t[..n], t[n]);
    AttestedSnoc(env, Epoch(t[..n]), t[n], a, d);
  }

  /** Provenance of every button and sensor event of every run. */
  lemma EventProvenance(env: Env, inputs: seq<Input>, k: nat)
    requires k < |Run(env, POWER_ON, inputs).1|
    requires var x := Run(env, POWER_ON, inputs).1[k]; x.ButtonCall? || x.SensorCall?
    ensures var t := Run(env, POWER_ON, inputs).1; Attested(env, Epoch(t[..k]), t[k].addr, t[k].device)
  {
    RunConsistent(env, inputs);
    hide Run, Lawful, Agrees, WellFormed, Attested;
    CallAttested(env, Run(env, POWER_ON, inputs).1, k);
  }

  lemma {:induction false} LastNumberOccurs(e: seq<Event>, a: Octets) returns (m: nat)
    requires LastNumber(e, a).Some?
    ensures m < |e| && Numbers(e[m], a) && e[m].seqNum == LastNumber(e, a).value
  {
    var n := |e| - 1;
    if Numbers(e[n], a) {
      m := n;
    } else {
      m := LastNumberOccurs(e[..n], a);
    }
  }

  /** The telegram exceeds the commissioned and every accepted sequence number of its address. */
  ghost predicate Newest(e: seq<Event>, a: Octets, s: word) {
    forall m | 0 <= m < |e| && Numbers(e[m], a) :: e[m].seqNum < s
  }

  lemma NewestIsFresh(e: seq<Event>, a: Octets, d: Entry, s: word)
    requires Grant(e, a, d)
    ensures Newest(e, a, s) <==> s > d.seqNum
  {
    var m := LastNumberOccurs(e, a);
    assert Newest(e, a, s) ==> e[m].seqNum < s;
  }

  lemma GrantedKey(e: seq<Event>, a: Octets, d: Entry, j: nat)
    requires Grant(e, a, d) && j < |e| && PairedAs(e[j], a)
    ensures d.key == e[j].key
  {
  }

  lemma CommissionedEntry(env: Env, s: State, t: seq<Event>, j: nat)
    requires Consistent(env, s, t) && j < |Epoch(t)| && Epoch(t)[j].Paired?
    ensures var x := Epoch(t)[j];
            && s.initialised && x.addr in s.table
            && s.table[x.addr].key == x.key && s.table[x.addr].kind == DetectDeviceType(x.addr)
            && Grant(Epoch(t), x.addr, s.table[x.addr])
  {
    hide Grant, Lawful, Epoch, CommissioningOn;
    var e, a := Epoch(t), Epoch(t)[j].addr;
    assert Numbers(e[j], a);
    GrantedKey(e, a, s.table[a], j);
  }

  /** The converse of provenance, for every run: once event `j` of the current epoch has commissioned the
  address, an advertisement of it is accepted exactly when it passes the filters, its tag verifies under the
  commissioned key, its sequence number exceeds the commissioned and every accepted one, and, from a switch,
  it is at most 13 bytes long with clear reserved bits. */
  lemma AcceptedExactly(env: Env, inputs: seq<Input>, a: Advert, j: nat)
    requires var e := Epoch(Run(env, POWER_ON, inputs).1); j < |e| && PairedAs(e[j], a.addr)
    ensures var (s, t) := Run(env, POWER_ON, inputs);
            var e, p := Epoch(t), Payload(a);
            var u := Step(env, s, Receive(a)).1;
            && (u != []
                <==> && |a.addr| == 6 && a.advType == 3 && a.addrType == 1 && |p| >= 9
                     && Telegrams.Verifies(env, e[j].key, a.addr, p)
                     && Newest(e, a.addr, Telegrams.Number(p))
                     && (DetectDeviceType(a.addr) == Switch ==> |p| <= 13 && p[4] < 32))
            && (u != [] ==> u[0] == Telegrams.AcceptanceOf(e[j].key, a.addr, p))
  {
    RunConsistent(env, inputs);
    var (s, t) := Run(env, POWER_ON, inputs);
    hide Run, Grant, Newest, Consistent, Payload, Telegrams.Number, Telegrams.Verifies;
    CommissionedEntry(env, s, t, j);
    if |a.addr| == 6 && a.advType == 3 && a.addrType == 1 && |Payload(a)| >= 9 {
      hide Step;
      Telegrams.DataTelegramExact(env, s, a);
      NewestIsFresh(Epoch(t), a.addr, s.table[a.addr], Telegrams.Number(Payload(a)));
    } else {
      Telegrams.FilteredHasNoEffect(env, s, a);
    }
  }

  /** An event with no initialisation after it belongs to the epoch. */
  lemma {:induction false} EpochHolds(t: seq<Event>, i: nat) returns (m: nat)
    requires i < |t| && forall k | i <= k < |t| :: !t[k].Initialised?
    ensures m < |Epoch(t)| && Epoch(t)[m] == t[i]
  {
    var n := |t| - 1;
    if i < n {
      m := EpochHolds(t[..n], i);
    } else {
      m := |Epoch(t)| - 1;
    }
  }

  /** The nonces of any two telegrams accepted without an initialisation in between differ, whatever their
  devices and whichever handler accepted them (section 2.1 of RFC 3610). */
  lemma NoncesDistinct(env: Env, inputs: seq<Input>, i: nat, k: nat)
    requires i < k < |Run(env, POWER_ON, inputs).1|
    requires var t := Run(env, POWER_ON, inputs).1;
             t[i].Accepted? && t[k].Accepted? && forall m | i <= m < k :: !t[m].Initialised?
    ensures var t := Run(env, POWER_ON, inputs).1; t[i].nonce != t[k].nonce
  {
    RunConsistent(env, inputs);
    hide Run;
    NoncesDiffer(env, Run(env, POWER_ON, inputs).1, i, k);
  }

  lemma NoncesDiffer(env: Env, t: seq<Event>, i: nat, k: nat)
    requires Lawful(env, t) && i < k < |t| && t[i].Accepted? && t[k].Accepted?
    requires forall m | i <= m < k :: !t[m].Initialised?
    ensures t[i].nonce != t[k].nonce
  {
    assert Justified(env, Epoch(t[..i]), t[i]);
    assert Justified(env, Epoch(t[..k]), t[k]);
    var m := EpochHolds(t[..k], i);
    assert Epoch(t[..k])[m] == t[i];
    if t[i].nonce == t[k].nonce {
      NonceInjective(t[i].addr, t[i].seqNum, t[k].addr, t[k].seqNum);
      assert false;
    }
  }

  /** The telegrams accepted from a device since it was commissioned number at most the difference of its
  stored and its commissioned sequence numbers. */
  ghost predicate AcceptancesBounded(e: seq<Event>, a: Octets, d: Entry) {
    exists j :: && 0 <= j < |e| && Commissions(e, j, a, d.key)
                && CountAccepted(e, a) <= d.seqNum as int - e[j].seqNum as int
  }

  /** The real bound on acceptance, in every run and for every commissioned device; it is at most
  2^32 - 1 minus the commissioned sequence number. */
  lemma AcceptanceBound(env: Env, inputs: seq<Input>, a: Octets)
    requires a in Run(env, POWER_ON, inputs).0.table
    ensures var (s, t) := Run(env, POWER_ON, inputs); AcceptancesBounded(Epoch(t), a, s.table[a])
  {
    RunConsistent(env, inputs);
    hide Run, Lawful, WellFormed, AcceptancesBounded;
    var (s, t) := Run(env, POWER_ON, inputs);
    GrantBound(Epoch(t), a, s.table[a]);
  }

  lemma GrantBound(e: seq<Event>, a: Octets, d: Entry)
    requires Grant(e, a, d)
    ensures AcceptancesBounded(e, a, d)
  {
  }

  predicate NothingAccepted(t: seq<Event>, a: Octets) {
    forall x <- t :: !AcceptedFrom(x, a)
  }

  lemma ExhaustedStep(env: Env, s: State, input: Input, a: Octets)
    requires !input.Init? && a in s.table && s.table[a].seqNum == MAX_WORD
    ensures var (s', t) := Step(env, s, input);
            a in s'.table && s'.table[a].seqNum == MAX_WORD && NothingAccepted(t, a)
  {
  }

  /** Once the stored sequence number is 2^32 - 1, nothing more is accepted from the device until the
  driver is initialised again: sequence numbers do not wrap around. */
  lemma {:induction false} Exhausted(env: Env, s: State, inputs: seq<Input>, a: Octets)
    requires InitFree(inputs) && a in s.table && s.table[a].seqNum == MAX_WORD
    ensures var (s', t) := Run(env, s, inputs);
            a in s'.table && s'.table[a].seqNum == MAX_WORD && NothingAccepted(t, a)
  {
    hide Step;
    if inputs != [] {
      var before := inputs[..|inputs| - 1];
      Exhausted(env, s, before, a);
      ExhaustedStep(env, Run(env, s, before).0, inputs[|before|], a);
    }
  }

  /** Initialisation forgets everything, so the guarantees above cannot reach across it: a session that
  starts with Init and is played twice is accepted twice, nonce for nonce. */
  lemma InitForgets(env: Env, s: State, session: seq<Input>)
    requires session != [] && session[0].Init?
    ensures Run(env, s, session) == Run(env, POWER_ON, session)
    ensures Run(env, s, session + session).1 == Run(env, s, session).1 + Run(env, s, session).1
  {
    assert session == [session[0]] + session[1..];
    SameAfterInit(env, s, session);
    var s1 := Run(env, s, session).0;
    SameAfterInit(env, s1, session);
    RunAppend(env, s, session, session);
  }

  lemma {:induction false} SameAfterInit(env: Env, s: State, session: seq<Input>)
    requires session != [] && session[0].Init?
    ensures Run(env, s, session) == Run(env, POWER_ON, session)
  {
    assert session == [session[0]] + session[1..];
    RunAppend(env, s, [session[0]], session[1..]);
    RunAppend(env, POWER_ON, [session[0]], session[1..]);
    OneInput(env, s, session[0]);
    OneInput(env, POWER_ON, session[0]);
  }

  lemma OneInput(env: Env, s: State, input: Input)
    ensures Run(env, s, [input]) == Step(env, s, input)
  {
    hide Step;
    RunSnoc(env, s, [], input);
    assert [] + [input] == [input];
    var r := Step(env, s, input);
    assert [] + r.1 == r.1;
  }

  // ------------------------------------------------------------------ Devices do not influence each other

  predicate ConcernsAddress(input: Input, a: Octets) {
    input.Receive? && input.advert.addr == a
  }

  /** The inputs that are advertisements of the address. */
  function Only(inputs: seq<Input>, a: Octets): seq<Input> {
    if inputs == [] then []
    else
      var x := inputs[|inputs| - 1];
      Only(inputs[..|inputs| - 1], a) + if ConcernsAddress(x, a) then [x] else []
  }

  predicate AboutAddress(x: Event, a: Octets) {
    match x
    case Initialised | Enabled | Disabled => false
    case _ => x.addr == a
  }

  /** The events that are about the address. */
  function About(t: seq<Event>, a: Octets): seq<Event> {
    if t == [] then []
    else
      var x := t[|t| - 1];
      About(t[..|t| - 1], a) + if AboutAddress(x, a) then [x] else []
  }

  lemma {:induction false} AboutAppend(t: seq<Event>, u: seq<Event>, a: Octets)
    ensures About(t + u, a) == About(t, a) + About(u, a)
  {
    if u == [] {
      assert t + u == t;
    } else {
      var n := |u| - 1;
      assert (t + u)[..|t + u| - 1] == t + u[..n];
      AboutAppend(t, u[..n], a);
    }
  }

  lemma {:induction false} AboutNone(t: seq<Event>, a: Octets)
    requires forall x <- t :: !AboutAddress(x, a)
    ensures About(t, a) == []
  {
    if t != [] {
      AboutNone(t[..|t| - 1], a);
    }
  }

  /** The two states treat the address alike. */
  predicate SameFor(s: State, t: State, a: Octets) {
    s.initialised == t.initialised && a in s.table && a in t.table && s.table[a] == t.table[a]
  }

  lemma OthersStep(env: Env, s: State, input: Input, a: Octets)
    requires !input.Init? && a in s.table && !ConcernsAddress(input, a)
    ensures var (s', t) := Step(env, s, input); SameFor(s, s', a) && forall x <- t :: !AboutAddress(x, a)
  {
  }

  lemma OwnStep(env: Env, s: State, t: State, input: Input, a: Octets)
    requires SameFor(s, t, a) && ConcernsAddress(input, a)
    ensures SameFor(Step(env, s, input).0, Step(env, t, input).0, a)
    ensures Step(env, s, input).1 == Step(env, t, input).1
  {
  }

  /** From any state where an address is commissioned, its entry and its events after any run without
  initialisation are those of the run restricted to its own advertisements: other devices' traffic, their
  commissioning and the commissioning flag have no influence. */
  lemma {:induction false} Projection(env: Env, s: State, inputs: seq<Input>, a: Octets)
    requires InitFree(inputs) && a in s.table
    ensures var (s1, t1) := Run(env, s, inputs);
            var (s2, t2) := Run(env, s, Only(inputs, a));
            SameFor(s1, s2, a) && About(t1, a) == About(t2, a)
  {
    hide Step;
    if inputs != [] {
      var n := |inputs| - 1;
      var before, x := inputs[..n], inputs[n];
      Projection(env, s, before, a);
      var (s1, t1) := Run(env, s, before);
      var (s2, t2) := Run(env, s, Only(before, a));
      AboutAppend(t1, Step(env, s1, x).1, a);
      if ConcernsAddress(x, a) {
        OwnStep(env, s1, s2, x, a);
        RunSnoc(env, s, Only(before, a), x);
        AboutAppend(t2, Step(env, s2, x).1, a);
      } else {
        OthersStep(env, s1, x, a);
        AboutNone(Step(env, s1, x).1, a);
        assert Only(inputs, a) == Only(before, a);
      }
    }
  }
}
