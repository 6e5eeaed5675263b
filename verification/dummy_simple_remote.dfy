/**
 * The simulated remote used with the dummy connection: as time passes it
 * reports a button press every second, cycling through buttons 0 to 3, and a
 * low-battery alert every three seconds. Each report is one `notifyRead`
 * chunk holding one frame of the sample protocol.
 */
module DummySimpleRemotes {
  import opened JavaTypes
  import opened Results
  import opened Lists
  import opened Devices
  import opened Inbound
  import opened SampleMessages
  import opened SampleDecoding
  import opened SimpleRemotes

  /**
   * How many times `while (acc > period) acc -= period` runs from `total`:
   * each run starts above the period, and what is left is at most the period
   * and, when the loop ran, still positive.
   */
  function Emitted(total: int, period: nat): (k: nat)
    requires period > 0
    ensures total - k * period <= period
    ensures k > 0 ==> total - (k - 1) * period > period
    ensures k > 0 ==> total - k * period > 0
    ensures total <= period <==> k == 0
    decreases if total > 0 then total else 0
  {
    if total > period then 1 + Emitted(total - period, period) else 0
  }

  /** The button presses reported from button `start` on: `start`, `start + 1`, … modulo 4. */
  function ButtonPresses(start: int, k: nat): (ms: seq<SampleMessage>)
    ensures |ms| == k
    ensures forall i | 0 <= i < k :: ms[i] == ButtonPressed(((start + i) % 4) as byte)
  {
    seq(k, i requires 0 <= i < k => ButtonPressed(((start + i) % 4) as byte))
  }

  /** `k` low-battery alerts. */
  function LowBatteryAlerts(k: nat): (ms: seq<SampleMessage>)
    ensures |ms| == k && forall i | 0 <= i < k :: ms[i] == LowBatteryAlert
  {
    seq(k, i requires 0 <= i < k => LowBatteryAlert)
  }

  /** One `notifyRead` chunk per message, each holding the message's frame. */
  function Chunks(ms: seq<SampleMessage>): (cs: seq<seq<byte>>)
    ensures |cs| == |ms| && forall i | 0 <= i < |ms| :: cs[i] == FrameOf(ms[i])
  {
    seq(|ms|, i requires 0 <= i < |ms| => FrameOf(ms[i]))
  }

  /** The chunks of a series of messages carry exactly the frames of that series. */
  lemma {:induction false} ChunksAreFrames(ms: seq<SampleMessage>)
    ensures Concat(Chunks(ms)) == Frames(ms)
    decreases |ms|
  {
    if ms != [] {
      assert Chunks(ms)[1..] == Chunks(ms[1..]);
      ChunksAreFrames(ms[1..]);
    }
  }

  lemma ChunksAppend(a: seq<SampleMessage>, b: seq<SampleMessage>)
    ensures Chunks(a + b) == Chunks(a) + Chunks(b)
  {
    assert forall i | 0 <= i < |a + b| :: Chunks(a + b)[i] == (Chunks(a) + Chunks(b))[i];
  }

  /** One more press appends the frame of the next button in the cycle. */
  lemma ButtonPressesStep(start: int, presses: nat)
    ensures Chunks(ButtonPresses(start, presses + 1)) ==
              Chunks(ButtonPresses(start, presses)) + [[HEADER_BYTE, 1, ((start + presses) % 4) as byte]]
  {
    assert ButtonPresses(start, presses + 1) == ButtonPresses(start, presses) + [ButtonPressed(((start + presses) % 4) as byte)];
  }

  /** Advancing the button modulo 4 keeps it the next one in the cycle. */
  lemma NextButton(button: int, start: int, presses: nat)
    requires button == (start + presses) % 4
    ensures (button + 1) % 4 == (start + presses + 1) % 4
  {
  }

  /** One more alert appends one more alert frame. */
  lemma AlertsStep(alerts: nat)
    ensures Chunks(LowBatteryAlerts(alerts + 1)) == Chunks(LowBatteryAlerts(alerts)) + [[HEADER_BYTE, 2]]
  {
    assert LowBatteryAlerts(alerts + 1) == LowBatteryAlerts(alerts) + [LowBatteryAlert];
  }

  /** `DummySimpleRemote`, with the chunks handed to `notifyRead` as a log. */
  class DummySimpleRemote {
    var lastPressedButton: int32
    /** Milliseconds not yet turned into button presses; a Java `long`. */
    var elapsedTimeForButtonPressed: int
    /** Milliseconds not yet turned into low-battery alerts; a Java `long`. */
    var elapsedTimeForLowBatteryAlert: int
    /** The chunks passed to `notifyRead`, in order. */
    var notified: seq<seq<byte>>

    ghost predicate Valid()
      reads this
    {
      0 <= lastPressedButton < 4
    }

    constructor ()
      ensures Valid() && lastPressedButton == 0 && notified == []
      ensures elapsedTimeForButtonPressed == 0 && elapsedTimeForLowBatteryAlert == 0
    {
      lastPressedButton := 0;
      elapsedTimeForButtonPressed := 0;
      elapsedTimeForLowBatteryAlert := 0;
      notified := [];
    }

    /** `sendButtonPressedMessage`: the frame `[0x9d, 0x01, (byte) button]`. */
    method SendButtonPressedMessage(button: int32)
      modifies this`notified
      ensures notified == old(notified) + [[HEADER_BYTE, 1, ToByte(button as int)]]
    {
      notified := notified + [[HEADER_BYTE, 1, ToByte(button as int)]];
    }

    /** `sendLowBatteryAlertMessage`: the frame `[0x9d, 0x02]`. */
    method SendLowBatteryAlertMessage()
      modifies this`notified
      ensures notified == old(notified) + [[HEADER_BYTE, 2]]
    {
      notified := notified + [[HEADER_BYTE, 2]];
    }

    /**
     * `sendData(elapsedTime)`: both accumulators grow by the elapsed time;
     * then one button frame goes out per whole second strictly exceeded, the
     * button advancing each time, and one alert frame per three seconds.
     */
    method SendData(elapsedTime: int)
      requires Valid()
      modifies this`lastPressedButton, this`elapsedTimeForButtonPressed, this`elapsedTimeForLowBatteryAlert, this`notified
      ensures Valid()
      ensures var total := old(elapsedTimeForButtonPressed) + elapsedTime;
              var k := Emitted(total, 1000);
              elapsedTimeForButtonPressed == total - k * 1000 &&
              lastPressedButton as int == (old(lastPressedButton) as int + k) % 4
      ensures var total := old(elapsedTimeForLowBatteryAlert) + elapsedTime;
              elapsedTimeForLowBatteryAlert == total - Emitted(total, 3000) * 3000
      ensures notified == old(notified) +
                Chunks(ButtonPresses(old(lastPressedButton) as int,
                                     Emitted(old(elapsedTimeForButtonPressed) + elapsedTime, 1000)) +
                       LowBatteryAlerts(Emitted(old(elapsedTimeForLowBatteryAlert) + elapsedTime, 3000)))
    {
      elapsedTimeForButtonPressed := elapsedTimeForButtonPressed + elapsedTime;
      elapsedTimeForLowBatteryAlert := elapsedTimeForLowBatteryAlert + elapsedTime;
      ghost var start := lastPressedButton as int;
      ghost var presses := Emitted(elapsedTimeForButtonPressed, 1000);
      ghost var alerts := Emitted(elapsedTimeForLowBatteryAlert, 3000);
      PressButtons();
      SendAlerts();
      ChunksAppend(ButtonPresses(start, presses), LowBatteryAlerts(alerts));
    }

    /** The first loop of `sendData`: a button frame per 1000 ms exceeded, cycling the button. */
    method PressButtons()
      requires Valid()
      modifies this`lastPressedButton, this`elapsedTimeForButtonPressed, this`notified
      ensures Valid()
      ensures var k := Emitted(old(elapsedTimeForButtonPressed), 1000);
              elapsedTimeForButtonPressed == old(elapsedTimeForButtonPressed) - k * 1000 &&
              lastPressedButton as int == (old(lastPressedButton) as int + k) % 4 &&
              notified == old(notified) + Chunks(ButtonPresses(old(lastPressedButton) as int, k))
    {
      ghost var start := lastPressedButton as int;
      ghost var presses := 0;
      while elapsedTimeForButtonPressed > 1000
        invariant Valid() && lastPressedButton as int == (start + presses) % 4
        invariant elapsedTimeForButtonPressed == old(elapsedTimeForButtonPressed) - presses * 1000
        invariant Emitted(old(elapsedTimeForButtonPressed), 1000) == presses + Emitted(elapsedTimeForButtonPressed, 1000)
        invariant notified == old(notified) + Chunks(ButtonPresses(start, presses))
        decreases elapsedTimeForButtonPressed
      {
        elapsedTimeForButtonPressed := elapsedTimeForButtonPressed - 1000;
        SendButtonPressedMessage(lastPressedButton);
        ToByteOfSmall(lastPressedButton as int);
        ButtonPressesStep(start, presses);
        NextButton(lastPressedButton as int, start, presses);
        lastPressedButton := (lastPressedButton + 1) % 4;
        presses := presses + 1;
      }
    }

    /** The second loop of `sendData`: an alert frame per 3000 ms exceeded. */
    method SendAlerts()
      modifies this`elapsedTimeForLowBatteryAlert, this`notified
      ensures var k := Emitted(old(elapsedTimeForLowBatteryAlert), 3000);
              elapsedTimeForLowBatteryAlert == old(elapsedTimeForLowBatteryAlert) - k * 3000 &&
              notified == old(notified) + Chunks(LowBatteryAlerts(k))
    {
      ghost var alerts := 0;
      while elapsedTimeForLowBatteryAlert > 3000
        invariant elapsedTimeForLowBatteryAlert == old(elapsedTimeForLowBatteryAlert) - alerts * 3000
        invariant Emitted(old(elapsedTimeForLowBatteryAlert), 3000) == alerts + Emitted(elapsedTimeForLowBatteryAlert, 3000)
        invariant notified == old(notified) + Chunks(LowBatteryAlerts(alerts))
        decreases elapsedTimeForLowBatteryAlert
      {
        elapsedTimeForLowBatteryAlert := elapsedTimeForLowBatteryAlert - 3000;
        SendLowBatteryAlertMessage();
        AlertsStep(alerts);
        alerts := alerts + 1;
      }
    }
  }

  /**
   * Replaying what one `sendData` emits: the button is the last one pressed
   * (unchanged when none was) and the battery flag is set when an alert was
   * sent.
   */
  lemma DummyReplay(s: RemoteState, start: int, presses: nat, alerts: nat)
    ensures var r := Replay(s, ButtonPresses(start, presses) + LowBatteryAlerts(alerts));
            r.lowBattery == (s.lowBattery || alerts > 0) &&
            r.lastPressedButtonId as int == (if presses == 0 then s.lastPressedButtonId as int else (start + presses - 1) % 4)
  {
    var ms := ButtonPresses(start, presses) + LowBatteryAlerts(alerts);
    LowBatteryReplay(s, ms);
    if alerts > 0 {
      assert ms[presses] == LowBatteryAlert;
    } else {
      assert forall i | 0 <= i < |ms| :: ms[i].ButtonPressed?;
    }
    if presses == 0 {
      NoPressKeepsButton(s, ms);
    } else {
      LastPressWins(s, ms, presses - 1);
    }
  }

  /**
   * What one `sendData` emits reaches a remote behind a controller: every
   * chunk is consumed, nothing is reported, and the remote ends as replaying
   * the emitted messages leaves it. Each chunk is sent by its own `notifyRead`
   * and so gets its own decode pass; since every chunk is one whole frame, a
   * pass over a chunk leaves the buffer empty, and one pass over the chunks
   * concatenated (which processes a frame and then resumes over the rest, as
   * `Inbound.DecodePassResumes` states) stands for those per-chunk passes.
   */
  lemma DummyDataReachesRemote(cache: map<DeviceClass, seq<Listener>>, c: DeviceClass, s: RemoteState,
                               start: int, presses: nat, alerts: nat)
    ensures var ms := ButtonPresses(start, presses) + LowBatteryAlerts(alerts);
            var r := DecodePass(RemotePipeline(cache), false, Concat(Chunks(ms)), Some(Device(c, s)));
            r.content == [] && r.reports == [] && r.device == Some(Device(c, Replay(s, ms)))
  {
    var ms := ButtonPresses(start, presses) + LowBatteryAlerts(alerts);
    ChunksAreFrames(ms);
    FramesReachRemote(cache, c, s, ms);
  }
}
