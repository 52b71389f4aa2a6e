/** One capture as the main program sets it up: the interval is chosen from the timebase, the
    frame length follows from it, the buffer starts as evenly spaced samples with code 0, and the
    acquisition loop fills and repairs it against the chosen interval, both as written. */
module Capture {
  import opened Wrappers
  import opened RateSelector
  import opened PacketDecoder
  import opened Trigger
  import opened Acquisition
  import opened AcquisitionReference
  import opened FrameProperties

  /** One frame for timebase `tbase` (hundredths of a ms) at resolution `res`, with trigger
      setting `trigger` at level `level`, read from `lines`. */
  function CaptureFrame(lines: seq<Line>, level: int, trigger: string, tbase: int, res: Resolution)
    : (r: Outcome<Buffer>)
    requires tbase >= 1
    ensures r.Complete? ==>
      && |r.value| == BufferLength(tbase, ChooseRate(tbase, res))
      && |r.value| >= 12
  {
    var interval := ChooseRate(tbase, res);
    var n := BufferLength(tbase, interval);
    BufferLengthBounds(tbase, res);
    Acquire(lines, level, TrigFunc(trigger), InitialData(n, interval), interval)
  }

  /** Without a trigger the loop never writes slot 0, and the repair rewrites offender slots only,
      which lie at slot 1 or later, so a complete frame keeps the initial sample (0, 0) there. */
  lemma UntriggeredSlotZero(lines: seq<Line>, level: int, trigger: string, tbase: int, res: Resolution)
    requires tbase >= 1 && trigger != "+" && trigger != "-"
    requires CaptureFrame(lines, level, trigger, tbase, res).Complete?
    ensures CaptureFrame(lines, level, trigger, tbase, res).value[0] == Sample(0, 0)
  {
    var interval := ChooseRate(tbase, res);
    var n := BufferLength(tbase, interval);
    BufferLengthBounds(tbase, res);
    var data := InitialData(n, interval);
    var ps := DecodeAll(lines, interval);
    var s := Fill(Init(Off, data), ps, level, Off, interval).value;
    UntriggeredFillKeepsSlotZero(Init(Off, data), ps, level, interval);
    CompleteStarts(ps, level, Off, data, interval);
    var p := StartIndex(ps, InitialLastCode(Off), level, Off).value;
    CompletePlaceholders(ps, p, level, Off, data, interval);
    assert 0 !in s.offenders;
    RepairKeepsOthers(s.buffer, s.offenders);
  }

  /** In a complete frame the times strictly increase from slot 1 on, and with a trigger slot 0 is
      at time 0, before slot 1: every delay is near the chosen interval, which is positive, and
      the repair changes codes only. */
  lemma CaptureTimesIncrease(lines: seq<Line>, level: int, trigger: string, tbase: int, res: Resolution)
    requires tbase >= 1
    requires CaptureFrame(lines, level, trigger, tbase, res).Complete?
    ensures var b := CaptureFrame(lines, level, trigger, tbase, res).value;
      && (forall k :: 1 <= k < |b| - 1 ==> b[k].time < b[k + 1].time)
      && (trigger == "+" || trigger == "-" ==> b[0].time == 0 < b[1].time)
  {
    var interval := ChooseRate(tbase, res);
    var n := BufferLength(tbase, interval);
    BufferLengthBounds(tbase, res);
    var mode := TrigFunc(trigger);
    var data := InitialData(n, interval);
    CompleteTimesIncrease(DecodeAll(lines, interval), level, mode, data, interval);
  }

  /** In Off mode every step leaves slot 0 alone: the loop is recording from the start and its
      write index only grows from 0. */
  lemma {:induction false} UntriggeredFillKeepsSlotZero(s: State, ps: seq<Packet>, level: int, target: int)
    requires Consistent(s) && s.triggered
    requires Fill(s, ps, level, Off, target).Complete?
    ensures Fill(s, ps, level, Off, target).value.buffer[0] == s.buffer[0]
    decreases |ps|
  {
    if s.buffer[|s.buffer| - 1].code == SENTINEL {
      var next := Step(s, ps[0], level, Off, target).value;
      assert next.buffer[0] == s.buffer[0];
      UntriggeredFillKeepsSlotZero(next, ps[1..], level, target);
    }
  }
}
