/** Runs of the driver seen from its inputs: which calls raise its flags, when an address is commissioned, and which
callbacks follow which decisions. */
module Sessions {
  import opened Bytes
  import opened DriverModel
  import Telegrams

  // ------------------------------------------------------------------ Flags

  /** The last input that is no advertisement. */
  function LastControl(inputs: seq<Input>): Option<Input> {
    if inputs == [] then None
    else if !inputs[|inputs| - 1].Receive? then Some(inputs[|inputs| - 1])
    else LastControl(inputs[..|inputs| - 1])
  }

  lemma ReceiveKeepsFlags(env: Env, s: State, a: Advert)
    ensures var (t, u) := Step(env, s, Receive(a));
            t.initialised == s.initialised && t.commissioning == s.commissioning && Initialised !in u
  {
  }

  /** After every run from power-on the driver is initialised if and only if it was told so, and commissioning is
  enabled if and only if the last control call was the one that enables it. */
  lemma {:induction false} FlagsExact(env: Env, inputs: seq<Input>)
    ensures var (s, t) := Run(env, POWER_ON, inputs);
            && (s.initialised <==> Init in inputs)
            && (s.initialised <==> Initialised in t)
            && (s.commissioning <==> LastControl(inputs) == Some(Enable))
  {
    if inputs != [] {
      var n := |inputs| - 1;
      var before, x := inputs[..n], inputs[n];
      FlagsExact(env, before);
      assert inputs == before + [x];
      if x.Receive? {
        ReceiveKeepsFlags(env, Run(env, POWER_ON, before).0, x.advert);
      }
    }
  }

  /** In every run from power-on, an unknown address is commissioned exactly when the driver was initialised, the
  last control call enabled commissioning, the advertisement passes the filters, its payload is long enough and,
  for a sensor, in the marked format, and fewer than eight addresses are known. */
  lemma CommissionedExactly(env: Env, inputs: seq<Input>, a: Advert)
    requires a.addr !in Run(env, POWER_ON, inputs).0.table
    ensures var s, p := Run(env, POWER_ON, inputs).0, Payload(a);
            a.addr in Step(env, s, Receive(a)).0.table
            <==> && Init in inputs && LastControl(inputs) == Some(Enable)
                 && |a.addr| == 6 && a.advType == 3 && a.addrType == 1 && |p| >= 22 && |s.table| < 8
                 && (DetectDeviceType(a.addr) == Sensor ==> |p| == 27 && p[4] == 0x3E)
  {
    FlagsExact(env, inputs);
    hide Run, Step;
    Telegrams.PairingExact(env, Run(env, POWER_ON, inputs).0, a);
  }

  // ------------------------------------------------------------------ Callbacks

  predicate IsCall(x: Event) {
    x.CommissionedCall? || x.ButtonCall? || x.SensorCall?
  }

  /** What follows event `k`. The commissioned callback follows a pairing exactly when it is registered. After an
  acceptance, the button callback follows exactly when it is registered, the device is a switch and the optional
  data are not three bytes long; the sensor callback exactly when it is registered and the device is no switch.
  No callback follows anything else. */
  predicate Prompt(env: Env, t: seq<Event>, k: nat)
    requires k < |t|
  {
    var more := k + 1 < |t|;
    && (more && t[k + 1].CommissionedCall? <==> t[k].Paired? && env.onCommissioned)
    && (more && t[k + 1].ButtonCall?
        <==> t[k].Accepted? && DetectDeviceType(t[k].addr) == Switch && env.onButton && |t[k].aad| != 8)
    && (more && t[k + 1].SensorCall?
        <==> t[k].Accepted? && DetectDeviceType(t[k].addr) != Switch && env.onSensor)
  }

  predicate AllPrompt(env: Env, t: seq<Event>) {
    (forall k: nat | k < |t| :: Prompt(env, t, k)) && (t != [] ==> !IsCall(t[0]))
  }

  lemma PromptAppend(env: Env, t: seq<Event>, u: seq<Event>)
    requires AllPrompt(env, t) && AllPrompt(env, u)
    ensures AllPrompt(env, t + u)
  {
    forall k: nat | k < |t + u| ensures Prompt(env, t + u, k) {
      if k < |t| {
        assert Prompt(env, t, k);
      } else {
        assert Prompt(env, u, k - |t|);
      }
    }
  }

  lemma DataPrompt(env: Env, s: State, a: Advert)
    requires WellFormed(s) && Relevant(s, a) && a.addr in s.table
    ensures AllPrompt(env, Step(env, s, Receive(a)).1)
  {
    hide Step, Payload, Telegrams.Number, Telegrams.Verifies;
    Telegrams.DataTelegramExact(env, s, a);
  }

  lemma StepPrompt(env: Env, s: State, input: Input)
    requires WellFormed(s)
    ensures AllPrompt(env, Step(env, s, input).1)
  {
    if input.Receive? {
      if Relevant(s, input.advert) && input.advert.addr in s.table {
        DataPrompt(env, s, input.advert);
      } else if Relevant(s, input.advert) {
        hide Step;
        Telegrams.PairingExact(env, s, input.advert);
      }
    }
  }

  /** In every run the callbacks directly follow the decisions they report, exactly when they are registered. */
  lemma {:induction false} CallbacksExact(env: Env, inputs: seq<Input>)
    ensures AllPrompt(env, Run(env, POWER_ON, inputs).1)
  {
    if inputs != [] {
      hide Step, AllPrompt;
      var before := inputs[..|inputs| - 1];
      CallbacksExact(env, before);
      RunWellFormed(env, POWER_ON, before);
      var s := Run(env, POWER_ON, before).0;
      StepPrompt(env, s, inputs[|before|]);
      PromptAppend(env, Run(env, POWER_ON, before).1, Step(env, s, inputs[|before|]).1);
    }
  }
}
