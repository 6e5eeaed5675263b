/**
 * The Smart Balance sensor-frame loss counter: `SmartBalanceSensorDataChecker`
 * watches the line index carried by each sensor-data message and, when
 * lines of the same frame are skipped, records the loss in a `Summary`.
 * Both are classes whose methods update their fields; each method is proved
 * against a function on a snapshot of those fields.
 */
module SensorDataChecking {
  import opened JavaTypes
  import opened Results

  /** The four `Int` counters of `Summary`. */
  datatype Counters = Counters(totalLossCount: int32, maxLossCount: int32, maxNoProblemCount: int32, totalSensorDataCount: int32)

  /** The counters of a new or cleared `Summary`. */
  const Cleared: Counters := Counters(0, 0, 0, 0)

  /**
   * `setLossCount`: the loss is added to the total (wrapping like any
   * Kotlin `Int`), and each maximum rises to the new value when that is
   * larger.
   */
  function RecordLoss(c: Counters, lossCount: int32, noProblemCount: int32): (r: Counters)
    ensures (c.totalLossCount as int + lossCount as int - r.totalLossCount as int) % 0x1_0000_0000 == 0
    ensures r.maxLossCount >= c.maxLossCount && r.maxLossCount >= lossCount
    ensures r.maxLossCount == c.maxLossCount || r.maxLossCount == lossCount
    ensures r.maxNoProblemCount >= c.maxNoProblemCount && r.maxNoProblemCount >= noProblemCount
    ensures r.maxNoProblemCount == c.maxNoProblemCount || r.maxNoProblemCount == noProblemCount
    ensures r.totalSensorDataCount == c.totalSensorDataCount
  {
    var total := AddInt32(c.totalLossCount, lossCount);
    var maxLoss := if c.maxLossCount < lossCount then lossCount else c.maxLossCount;
    var maxNoProblem := if c.maxNoProblemCount < noProblemCount then noProblemCount else c.maxNoProblemCount;
    Counters(total, maxLoss, maxNoProblem, c.totalSensorDataCount)
  }

  /** `Summary`: the loss statistics of one checker. */
  class Summary {
    var totalLossCount: int32
    var maxLossCount: int32
    var maxNoProblemCount: int32
    var totalSensorDataCount: int32

    /** The counters as a value. */
    function Counts(): Counters
      reads this
    {
      Counters(totalLossCount, maxLossCount, maxNoProblemCount, totalSensorDataCount)
    }

    /** A new summary: every counter zero. */
    constructor ()
      ensures Counts() == Cleared
    {
      totalLossCount := 0;
      maxLossCount := 0;
      maxNoProblemCount := 0;
      totalSensorDataCount := 0;
    }

    /** `setLossCount(lossCount, noProblemCount)`. */
    method SetLossCount(lossCount: int32, noProblemCount: int32)
      modifies this
      ensures Counts() == RecordLoss(old(Counts()), lossCount, noProblemCount)
    {
      totalLossCount := AddInt32(totalLossCount, lossCount);
      if maxLossCount < lossCount {
        maxLossCount := lossCount;
      }
      if maxNoProblemCount < noProblemCount {
        maxNoProblemCount := noProblemCount;
      }
    }

    /** `clear`: every counter back to zero. */
    method Clear()
      modifies this
      ensures Counts() == Cleared
    {
      totalLossCount := 0;
      maxLossCount := 0;
      maxNoProblemCount := 0;
      totalSensorDataCount := 0;
    }
  }

  /** Several `setLossCount` calls in a row, each with its loss and its count of good lines. */
  function RecordLosses(c: Counters, losses: seq<(int32, int32)>): Counters
    decreases |losses|
  {
    if losses == [] then c
    else RecordLoss(RecordLosses(c, losses[..|losses| - 1]), losses[|losses| - 1].0, losses[|losses| - 1].1)
  }

  /** The losses added up without wrapping. */
  function SumOfLosses(losses: seq<(int32, int32)>): int
    decreases |losses|
  {
    if losses == [] then 0 else SumOfLosses(losses[..|losses| - 1]) + losses[|losses| - 1].0 as int
  }

  /**
   * After any run of `setLossCount` calls, `maxLossCount` is at least its
   * first value and at least every loss recorded.
   */
  lemma {:induction false} MaxLossBoundsAll(c: Counters, losses: seq<(int32, int32)>)
    ensures RecordLosses(c, losses).maxLossCount >= c.maxLossCount
    ensures forall i | 0 <= i < |losses| :: RecordLosses(c, losses).maxLossCount >= losses[i].0
    decreases |losses|
  {
    if losses != [] {
      var init := losses[..|losses| - 1];
      MaxLossBoundsAll(c, init);
      assert forall i | 0 <= i < |init| :: losses[i] == init[i];
    }
  }

  /** ... and it is one of them: the first value or a loss that was recorded. */
  lemma {:induction false} MaxLossAttained(c: Counters, losses: seq<(int32, int32)>)
    ensures RecordLosses(c, losses).maxLossCount == c.maxLossCount ||
            exists i | 0 <= i < |losses| :: RecordLosses(c, losses).maxLossCount == losses[i].0
    decreases |losses|
  {
    if losses != [] {
      var init := losses[..|losses| - 1];
      var last := losses[|losses| - 1];
      MaxLossAttained(c, init);
      var before := RecordLosses(c, init);
      var m := RecordLosses(c, losses).maxLossCount;
      if m == last.0 {
        assert m == losses[|losses| - 1].0;
      } else if m != c.maxLossCount {
        var i :| 0 <= i < |init| && before.maxLossCount == init[i].0;
        assert m == losses[i].0;
      }
    }
  }

  /** `totalLossCount` is its first value plus every loss recorded, modulo 2^32. */
  lemma {:induction false} TotalLossAddsUp(c: Counters, losses: seq<(int32, int32)>)
    ensures (RecordLosses(c, losses).totalLossCount as int - (c.totalLossCount as int + SumOfLosses(losses))) % 0x1_0000_0000 == 0
    decreases |losses|
  {
    if losses != [] {
      var init := losses[..|losses| - 1];
      var last := losses[|losses| - 1].0 as int;
      TotalLossAddsUp(c, init);
      var before := RecordLosses(c, init).totalLossCount as int;
      var after := RecordLosses(c, losses).totalLossCount as int;
      assert (before + last - after) % 0x1_0000_0000 == 0;
      MultiplesSubtract(before - (c.totalLossCount as int + SumOfLosses(init)), before + last - after);
    }
  }

  /** The difference of two multiples of 2^32 is one. */
  lemma MultiplesSubtract(a: int, b: int)
    requires a % 0x1_0000_0000 == 0 && b % 0x1_0000_0000 == 0
    ensures (a - b) % 0x1_0000_0000 == 0
  {
  }

  /** The first byte of every sensor message, `0xfa.toByte()`. */
  const FRAME_START: byte := ToByte(0xfa)

  /** The second byte of a sensor-data message, `0xD3.toByte()`. */
  const SENSOR_DATA: byte := ToByte(0xD3)

  /**
   * How the line index is read from byte 17. The checker as written
   * computes `(b and 0xff.toByte()).toInt()`: `0xff.toByte()` is -1, so the
   * `and` keeps the byte as it is and `toInt` extends its sign. `Masked` is
   * the unsigned value 0..255 that the mask evidently means.
   */
  datatype IndexReading = SignExtended | Masked

  /** The line index carried by `b`. */
  function XIndex(b: byte, reading: IndexReading): (x: int32)
    ensures reading == SignExtended ==> -128 <= x < 128 && x as int == b as int
    ensures reading == Masked ==> 0 <= x < 256 && (x as int - b as int) % 256 == 0
  {
    match reading
    case SignExtended => b as int as int32
    case Masked => Unsigned(b) as int as int32
  }

  /** The checker's fields and its summary's counters. */
  datatype CheckerState = CheckerState(frameIdx: byte, beforeXIdx: int32, noProblemCount: int32, counters: Counters)

  /** The state of a new checker. */
  const Initial: CheckerState := CheckerState(0, 0, 0, Cleared)

  /**
   * What a sensor-data message with frame index `frameIdx` and line index
   * `xIdx` does to the state. A non-zero frame index is adopted when none is
   * held, resetting the good-line count. Within the held frame, a line index
   * that is neither the previous one nor the next records a loss of
   * `xIdx - beforeXIdx - 1` lines and resets the good-line count, and the
   * next line index counts one more good line; a different non-zero frame
   * counts one more good line too. Every such message is counted, and its
   * frame and line index become the held ones. All of it is `Int`
   * arithmetic, which wraps.
   */
  function Step(s: CheckerState, frameIdx: byte, xIdx: int32): (r: CheckerState)
    ensures r.frameIdx == frameIdx && r.beforeXIdx == xIdx
    ensures r.counters.totalSensorDataCount == AddInt32(s.counters.totalSensorDataCount, 1)
  {
    var counters :=
      if frameIdx == 0 then s.counters
      else
        var held := if s.frameIdx == 0 then frameIdx else s.frameIdx;
        var good := if s.frameIdx == 0 then 0 else s.noProblemCount;
        if frameIdx == held && s.beforeXIdx != xIdx && s.beforeXIdx != ToInt32(xIdx as int - 1) then
          RecordLoss(s.counters, ToInt32(xIdx as int - s.beforeXIdx as int - 1), good)
        else s.counters;
    var noProblemCount :=
      if frameIdx == 0 then s.noProblemCount
      else
        var held := if s.frameIdx == 0 then frameIdx else s.frameIdx;
        var good := if s.frameIdx == 0 then 0 else s.noProblemCount;
        if frameIdx != held then AddInt32(good, 1)
        else if s.beforeXIdx == xIdx then good
        else if s.beforeXIdx != ToInt32(xIdx as int - 1) then 0
        else AddInt32(good, 1);
    var counted := counters.(totalSensorDataCount := AddInt32(counters.totalSensorDataCount, 1));
    CheckerState(frameIdx, xIdx, noProblemCount, counted)
  }

  /** A message long enough to carry a line index, with the sensor-data header. */
  predicate IsSensorFrame(messageByte: seq<byte>)
  {
    |messageByte| >= 18 && messageByte[0] == FRAME_START && messageByte[1] == SENSOR_DATA
  }

  /**
   * `simpleCheckSensorData` as a value: a message that does not start with
   * `0xfa` or is not sensor data changes nothing; reading past the end of
   * the array throws before anything changes; a sensor frame is a `Step`.
   */
  function Check(s: CheckerState, messageByte: seq<byte>, reading: IndexReading): (r: (CheckerState, Outcome))
  {
    if |messageByte| < 1 then (s, Threw(IndexOutOfBounds))
    else if messageByte[0] != FRAME_START then (s, Done)
    else if |messageByte| < 2 then (s, Threw(IndexOutOfBounds))
    else if messageByte[1] != SENSOR_DATA then (s, Done)
    else if |messageByte| < 18 then (s, Threw(IndexOutOfBounds))
    else (Step(s, messageByte[8], XIndex(messageByte[17], reading)), Done)
  }

  /** `SmartBalanceSensorDataChecker`: the held frame and line index, the run of good lines, and the summary. */
  class SmartBalanceSensorDataChecker {
    var frameIdx: byte
    var beforeXIdx: int32
    var noProblemCount: int32
    const summary: Summary

    /** The fields and the summary's counters as a value. */
    function State(): CheckerState
      reads this, summary
    {
      CheckerState(frameIdx, beforeXIdx, noProblemCount, summary.Counts())
    }

    /** A new checker: no frame held, line index 0, and a fresh summary. */
    constructor ()
      ensures State() == Initial && fresh(summary)
    {
      frameIdx := 0;
      beforeXIdx := 0;
      noProblemCount := 0;
      summary := new Summary();
    }

    /**
     * `simpleCheckSensorData(messageByte)`, reading the line index as
     * `reading` says (the source reads it `SignExtended`).
     */
    method SimpleCheckSensorData(messageByte: seq<byte>, reading: IndexReading) returns (r: Outcome)
      modifies this, summary
      ensures (State(), r) == Check(old(State()), messageByte, reading)
    {
      if |messageByte| < 1 {
        return Threw(IndexOutOfBounds);
      }
      if messageByte[0] != FRAME_START {
        return Done;
      }
      if |messageByte| < 2 {
        return Threw(IndexOutOfBounds);
      }
      if messageByte[1] != SENSOR_DATA {
        return Done;
      }
      if |messageByte| < 18 {
        return Threw(IndexOutOfBounds);
      }
      var frame := messageByte[8];
      var xIdx := XIndex(messageByte[17], reading);
      if frame != 0 {
        if frameIdx == 0 {
          frameIdx := frame;
          noProblemCount := 0;
        }
        if frame == frameIdx {
          if beforeXIdx != xIdx {
            if beforeXIdx != ToInt32(xIdx as int - 1) {
              var lossCount := ToInt32(xIdx as int - beforeXIdx as int - 1);
              summary.SetLossCount(lossCount, noProblemCount);
              noProblemCount := 0;
            } else {
              noProblemCount := AddInt32(noProblemCount, 1);
            }
          }
        } else {
          noProblemCount := AddInt32(noProblemCount, 1);
        }
      }
      summary.totalSensorDataCount := AddInt32(summary.totalSensorDataCount, 1);
      beforeXIdx := xIdx;
      frameIdx := frame;
      return Done;
    }
  }

  /** A message that does not start with `0xfa`, or starts so but is not sensor data, changes nothing. */
  lemma OtherMessagesIgnored(s: CheckerState, messageByte: seq<byte>, reading: IndexReading)
    requires |messageByte| >= 1
    requires messageByte[0] != FRAME_START || (|messageByte| >= 2 && messageByte[1] != SENSOR_DATA)
    ensures Check(s, messageByte, reading) == (s, Done)
  {
  }

  /** A message that passes the header checks but is too short to carry a line index throws, changing nothing. */
  lemma TruncatedFrameThrows(s: CheckerState, messageByte: seq<byte>, reading: IndexReading)
    requires |messageByte| < 18 && (|messageByte| < 1 || messageByte[0] == FRAME_START)
    requires |messageByte| < 2 || messageByte[1] == SENSOR_DATA
    ensures Check(s, messageByte, reading) == (s, Threw(IndexOutOfBounds))
  {
  }

  /**
   * A sensor frame is counted once, its frame and line index become the held
   * ones, and only a loss recorded for it changes the loss counters; a
   * message that is not a sensor frame is not counted.
   */
  lemma SensorFrameCounted(s: CheckerState, messageByte: seq<byte>, reading: IndexReading)
    ensures var r := Check(s, messageByte, reading);
            IsSensorFrame(messageByte) ==>
              r.1 == Done && r.0.frameIdx == messageByte[8] && r.0.beforeXIdx == XIndex(messageByte[17], reading) &&
              r.0.counters.totalSensorDataCount == AddInt32(s.counters.totalSensorDataCount, 1)
    ensures !IsSensorFrame(messageByte) ==> Check(s, messageByte, reading).0 == s
  {
  }

  /**
   * Within the held frame, a line index that is neither the previous one
   * nor the next records `xIdx - beforeXIdx - 1` lost lines with the run of
   * good lines so far, and starts a new run.
   */
  lemma SkippedLinesRecorded(s: CheckerState, frameIdx: byte, xIdx: int32)
    requires frameIdx != 0 && s.frameIdx == frameIdx && -0x8000_0000 < xIdx
    requires s.beforeXIdx != xIdx && s.beforeXIdx as int != xIdx as int - 1
    requires -0x8000_0000 < xIdx as int - s.beforeXIdx as int - 1 < 0x8000_0000
    ensures var r := Step(s, frameIdx, xIdx);
            var loss := (xIdx as int - s.beforeXIdx as int - 1) as int32;
            r.noProblemCount == 0 &&
            r.counters == RecordLoss(s.counters, loss, s.noProblemCount).(totalSensorDataCount := r.counters.totalSensorDataCount)
  {
    ToInt32OfSmall(xIdx as int - 1);
    ToInt32OfSmall(xIdx as int - s.beforeXIdx as int - 1);
  }

  /** Within the held frame, the next line index records no loss and lengthens the run of good lines by one. */
  lemma NextLineNoLoss(s: CheckerState, frameIdx: byte, xIdx: int32)
    requires frameIdx != 0 && s.frameIdx == frameIdx && xIdx as int == s.beforeXIdx as int + 1
    ensures var r := Step(s, frameIdx, xIdx);
            r.noProblemCount == AddInt32(s.noProblemCount, 1) &&
            r.counters == s.counters.(totalSensorDataCount := r.counters.totalSensorDataCount)
  {
    ToInt32OfSmall(xIdx as int - 1);
  }

  /** Frame index 0 only counts the message and moves the held indices. */
  lemma FrameZeroOnlyCounted(s: CheckerState, xIdx: int32)
    ensures var r := Step(s, 0, xIdx);
            r.noProblemCount == s.noProblemCount && r.counters == s.counters.(totalSensorDataCount := r.counters.totalSensorDataCount)
  {
  }

  /**
   * Within the held frame, the same line index again records no loss and
   * leaves the run of good lines as it was.
   */
  lemma RepeatedLineOnlyCounted(s: CheckerState, frameIdx: byte, xIdx: int32)
    requires frameIdx != 0 && s.frameIdx == frameIdx && s.beforeXIdx == xIdx
    ensures var r := Step(s, frameIdx, xIdx);
            r.noProblemCount == s.noProblemCount &&
            r.counters == s.counters.(totalSensorDataCount := r.counters.totalSensorDataCount)
  {
  }

  /**
   * When no frame is held (a new checker, or after a frame-0 message), a
   * non-zero frame is adopted and judged against the held line index with a
   * run of zero good lines: the same line leaves the run at zero, the next
   * line starts it at one, and any other line records
   * `xIdx - beforeXIdx - 1` lost lines with a run of zero.
   */
  lemma FrameAdopted(s: CheckerState, frameIdx: byte, xIdx: int32)
    requires frameIdx != 0 && s.frameIdx == 0
    requires -0x8000_0000 < xIdx && -0x8000_0000 < xIdx as int - s.beforeXIdx as int - 1 < 0x8000_0000
    ensures var r := Step(s, frameIdx, xIdx);
            r.frameIdx == frameIdx &&
            (s.beforeXIdx == xIdx ==>
               r.noProblemCount == 0 &&
               r.counters == s.counters.(totalSensorDataCount := r.counters.totalSensorDataCount)) &&
            (s.beforeXIdx as int == xIdx as int - 1 ==>
               r.noProblemCount == 1 &&
               r.counters == s.counters.(totalSensorDataCount := r.counters.totalSensorDataCount)) &&
            (s.beforeXIdx != xIdx && s.beforeXIdx as int != xIdx as int - 1 ==>
               r.noProblemCount == 0 &&
               r.counters == RecordLoss(s.counters, (xIdx as int - s.beforeXIdx as int - 1) as int32, 0)
                               .(totalSensorDataCount := r.counters.totalSensorDataCount))
  {
    ToInt32OfSmall(xIdx as int - 1);
    ToInt32OfSmall(xIdx as int - s.beforeXIdx as int - 1);
    ToInt32OfSmall(1);
  }

  /** A new checker given frame 1, line 5 records a loss of four lines with a run of zero good lines. */
  lemma FirstFrameRecordsLoss(reading: IndexReading)
    ensures var r := Check(Initial, FrameWithLine(5), reading).0;
            r.frameIdx == 1 && r.beforeXIdx == 5 && r.noProblemCount == 0 &&
            r.counters == Counters(4, 4, 0, 1)
  {
    var m := FrameWithLine(5);
    assert XIndex(m[17], reading) == 5;
    FrameAdopted(Initial, 1, 5);
  }

  /**
   * A new non-zero frame while a different one is held lengthens the run of
   * good lines whatever its line index (`FrameAdopted` covers the case where
   * none is held).
   */
  lemma FrameChangeCountsGood(s: CheckerState, frameIdx: byte, xIdx: int32)
    requires frameIdx != 0 && s.frameIdx != 0 && s.frameIdx != frameIdx
    ensures var r := Step(s, frameIdx, xIdx);
            r.noProblemCount == AddInt32(s.noProblemCount, 1) &&
            r.counters == s.counters.(totalSensorDataCount := r.counters.totalSensorDataCount)
  {
  }

  /** A sensor frame with frame index 1 and line index `x`. */
  function FrameWithLine(x: byte): (m: seq<byte>)
    ensures IsSensorFrame(m) && m[8] == 1 && m[17] == x
  {
    [FRAME_START, SENSOR_DATA] + seq(6, _ => 0 as byte) + [1] + seq(8, _ => 0 as byte) + [x]
  }

  /**
   * The defect: after line 0x7f of frame 1, line 0x80 of the same frame is
   * the next line, but the checker as written reads it as -128 and records
   * a loss of -256 lines, resetting the run of good lines; read unsigned,
   * it is the next line and nothing is lost.
   */
  lemma NextLineAfter127CountedAsLoss()
    ensures var s := CheckerState(1, 0x7f, 5, Cleared);
            var asWritten := Check(s, FrameWithLine(ToByte(0x80)), SignExtended).0;
            asWritten.counters.totalLossCount == -256 && asWritten.counters.maxLossCount == 0 && asWritten.noProblemCount == 0
    ensures var s := CheckerState(1, 0x7f, 5, Cleared);
            var intended := Check(s, FrameWithLine(ToByte(0x80)), Masked).0;
            intended.counters.totalLossCount == 0 && intended.noProblemCount == 6
  {
    var s := CheckerState(1, 0x7f, 5, Cleared);
    var m := FrameWithLine(ToByte(0x80));
    assert XIndex(m[17], SignExtended) == -128;
    assert XIndex(m[17], Masked) == 0x80;
    SkippedLinesRecorded(s, 1, -128);
    NextLineNoLoss(s, 1, 0x80);
  }

  /**
   * Read unsigned, as intended, line indices 0 to 255 of one frame arrive
   * in order without a loss being recorded: every next line lengthens the
   * run of good lines, including the step from 0x7f to 0x80.
   */
  lemma NextLineNeverLost(s: CheckerState, messageByte: seq<byte>)
    requires IsSensorFrame(messageByte) && messageByte[8] != 0 && s.frameIdx == messageByte[8]
    requires Unsigned(messageByte[17]) == s.beforeXIdx as int + 1
    ensures var r := Check(s, messageByte, Masked).0;
            r.noProblemCount == AddInt32(s.noProblemCount, 1) &&
            r.counters == s.counters.(totalSensorDataCount := r.counters.totalSensorDataCount)
  {
    var x := XIndex(messageByte[17], Masked);
    assert x as int == Unsigned(messageByte[17]);
    NextLineNoLoss(s, messageByte[8], x);
  }

  /** The checker's state after a run of messages, whatever each one's outcome. */
  function CheckAll(s: CheckerState, messages: seq<seq<byte>>, reading: IndexReading): CheckerState
    decreases |messages|
  {
    if messages == [] then s
    else Check(CheckAll(s, messages[..|messages| - 1], reading), messages[|messages| - 1], reading).0
  }

  /** How many of the messages are sensor frames. */
  function SensorFrameCount(messages: seq<seq<byte>>): nat
    decreases |messages|
  {
    if messages == [] then 0
    else SensorFrameCount(messages[..|messages| - 1]) + if IsSensorFrame(messages[|messages| - 1]) then 1 else 0
  }

  /**
   * `totalSensorDataCount` counts exactly the sensor frames among the
   * messages, modulo 2^32, and the largest loss and longest good run never
   * go down.
   */
  lemma {:induction false} CountsSensorFrames(s: CheckerState, messages: seq<seq<byte>>, reading: IndexReading)
    ensures var r := CheckAll(s, messages, reading);
            (r.counters.totalSensorDataCount as int - (s.counters.totalSensorDataCount as int + SensorFrameCount(messages))) % 0x1_0000_0000 == 0
    ensures CheckAll(s, messages, reading).counters.maxLossCount >= s.counters.maxLossCount
    ensures CheckAll(s, messages, reading).counters.maxNoProblemCount >= s.counters.maxNoProblemCount
    decreases |messages|
  {
    if messages != [] {
      var init := messages[..|messages| - 1];
      CountsSensorFrames(s, init, reading);
      SensorFrameCounted(CheckAll(s, init, reading), messages[|messages| - 1], reading);
    }
  }
}
