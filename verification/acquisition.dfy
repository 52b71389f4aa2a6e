/** The acquisition loop, as written: one frame is read line by line into a fixed-length buffer of
    (time, code) samples, starting at a level-crossing trigger, and the codes next to corrupted
    lines are patched afterwards.

    The serial link is a finite sequence of lines; when they run out before the frame is full the
    model ends with `Exhausted`. A read that times out yields a short (often empty) line,
    which is simply one more corrupted line of the sequence. Decoding a line depends on nothing
    but the line and the target interval, so the loop is modelled on the decoded packets: the
    iteration that reads line `k` acts on packet `k`. */
module Acquisition {
  import opened Wrappers
  import opened PacketDecoder
  import opened Trigger

  /** One buffer slot: elapsed microseconds and the 10-bit voltage code. */
  datatype Sample = Sample(time: int, code: int)

  type Buffer = seq<Sample>

  /** The code preset in the last slot: the frame is full once it is overwritten by another code. */
  const SENTINEL: int := 1025

  /** The loop state: whether recording has begun, the last sample written (or, before the
      trigger, the running time and the last valid code), the write index, the recorded offender
      indices, and the buffer. */
  datatype State = State(triggered: bool, last: Sample, i: nat, offenders: seq<nat>, buffer: Buffer)

  /** The state the loop starts from on buffer `data`: the last slot holds the sentinel code. */
  function Init(mode: Mode, data: Buffer): (s: State)
    requires |data| >= 2
    ensures s.triggered <==> mode == Off
    ensures s.i == 0 && s.offenders == [] && s.last.time == 0
    ensures |s.buffer| == |data| && s.buffer[|data| - 1].code == SENTINEL
    ensures forall k :: 0 <= k < |data| - 1 ==> s.buffer[k] == data[k]
  {
    var n := |data|;
    State(InitialTriggered(mode), Sample(0, InitialLastCode(mode)), 0, [],
          data[n - 1 := Sample(data[n - 1].time, SENTINEL)])
  }

  /** The facts every state the loop reaches satisfies. */
  predicate Consistent(s: State)
  {
    && |s.buffer| >= 2
    && s.i < |s.buffer|
    && (!s.triggered ==> s.i == 0)
    // the last slot keeps the sentinel until the write index reaches it
    && (s.i < |s.buffer| - 1 ==> s.buffer[|s.buffer| - 1].code == SENTINEL)
    // offenders are earlier write indices, never 0, recorded in increasing order
    && (forall k :: 0 <= k < |s.offenders| ==> 1 <= s.offenders[k] < s.i)
    && (forall a, b :: 0 <= a < b < |s.offenders| ==> s.offenders[a] < s.offenders[b])
  }

  /** `last = [last[0] + delt, datum]; data[:, i] = last`, failing past the end of the buffer. */
  function Write(s: State, delta: int, code: int): (r: Option<State>)
    ensures r.Some? <==> s.i < |s.buffer|
    ensures r.Some? ==> r.value.i == s.i && |r.value.buffer| == |s.buffer|
  {
    var last := Sample(s.last.time + delta, code);
    if s.i < |s.buffer| then Some(s.(last := last, buffer := s.buffer[s.i := last])) else None
  }

  /** One iteration of the loop on one decoded line; `None` is the index error of a write past
      the end. */
  function Step(s: State, p: Packet, level: int, mode: Mode, target: int): (r: Option<State>)
    requires |s.buffer| >= 1
    ensures r.Some? ==> |r.value.buffer| == |s.buffer|
    ensures Consistent(s) && r.Some? ==> Consistent(r.value)
    // only a write past the last slot fails
    ensures Consistent(s) && r.None? ==> s.i == |s.buffer| - 1
  {
    if p.Corrupted? && s.i == 0 then Some(s)
    else
      var delta := if p.Valid? then p.delta else target;
      var code := if p.Valid? then p.code else 0;
      var offenders := if p.Valid? then s.offenders else s.offenders + [s.i];
      if !s.triggered then
        if Fires(mode, level, s.last.code, code) then
          var first := Sample(0, s.last.code);
          Write(State(true, first, 1, offenders, s.buffer[0 := first]), delta, code)
        else
          Write(s.(offenders := offenders), delta, code)
      else
        Write(s.(i := s.i + 1, offenders := offenders), delta, code)
  }

  /** Runs the loop over the decoded lines `ps` until the last slot loses its sentinel code. */
  function Fill(s: State, ps: seq<Packet>, level: int, mode: Mode, target: int): (r: Outcome<State>)
    requires |s.buffer| >= 1
    ensures r.Complete? ==>
      |r.value.buffer| == |s.buffer| && r.value.buffer[|s.buffer| - 1].code != SENTINEL
    // a filled frame has written its last slot, after the trigger
    ensures Consistent(s) && r.Complete? ==>
      && Consistent(r.value)
      && r.value.triggered
      && r.value.i == |s.buffer| - 1
    decreases |ps|
  {
    if s.buffer[|s.buffer| - 1].code != SENTINEL then Complete(s)
    else if |ps| == 0 then Exhausted
    else
      match Step(s, ps[0], level, mode, target)
      case None => IndexError
      case Some(next) => Fill(next, ps[1..], level, mode, target)
  }

  /** The float `(a + b)/2` stored into an integer slot: the half of `x` truncated toward zero. */
  function Half(x: int): (h: int)
    ensures x >= 0 ==> 0 <= x - 2 * h <= 1
    ensures x < 0 ==> -1 <= x - 2 * h <= 0
  {
    if x >= 0 then x / 2 else -((-x) / 2)
  }

  /** For each offender `k`, in recorded order, replaces the code of slot `k` by the truncated
      mean of the codes of slots `k - 1` and `k + 1`. */
  function Repair(b: Buffer, offenders: seq<nat>): (r: Buffer)
    requires forall j :: 0 <= j < |offenders| ==> 1 <= offenders[j] && offenders[j] + 1 < |b|
    ensures |r| == |b|
    ensures forall k {:trigger r[k]} :: 0 <= k < |b| ==> r[k].time == b[k].time
    // no offender is the last slot, so the repair never reaches it
    ensures |b| > 0 ==> r[|b| - 1] == b[|b| - 1]
    decreases |offenders|
  {
    if |offenders| == 0 then b
    else
      var k := offenders[0];
      Repair(b[k := Sample(b[k].time, Half(b[k - 1].code + b[k + 1].code))], offenders[1..])
  }

  /** The repair rewrites offender slots only. */
  lemma {:induction false} RepairKeepsOthers(b: Buffer, offenders: seq<nat>)
    requires forall j :: 0 <= j < |offenders| ==> 1 <= offenders[j] && offenders[j] + 1 < |b|
    ensures forall k {:trigger Repair(b, offenders)[k]} :: 0 <= k < |b| && k !in offenders ==>
      Repair(b, offenders)[k] == b[k]
    decreases |offenders|
  {
    if |offenders| > 0 {
      var k := offenders[0];
      var b1 := b[k := Sample(b[k].time, Half(b[k - 1].code + b[k + 1].code))];
      RepairKeepsOthers(b1, offenders[1..]);
      assert Repair(b, offenders) == Repair(b1, offenders[1..]);
      forall j | 0 <= j < |b| && j !in offenders
        ensures Repair(b, offenders)[j] == b[j]
      {
        assert j != k && j !in offenders[1..];
        assert Repair(b1, offenders[1..])[j] == b1[j] == b[j];
      }
    }
  }

  /** The buffer before the first frame: `n` samples at times `k * interval`, all with code 0. */
  function InitialData(n: nat, interval: int): (data: Buffer)
    ensures |data| == n
    ensures forall k :: 0 <= k < n ==> data[k] == Sample(k * interval, 0)
  {
    seq(n, k requires 0 <= k < n => Sample(k * interval, 0))
  }

  /** One acquisition cycle on buffer `data`: fill, then repair. */
  function Acquire(lines: seq<Line>, level: int, mode: Mode, data: Buffer, target: int): (r: Outcome<Buffer>)
    requires |data| >= 2
    ensures r.Complete? ==> |r.value| == |data| && r.value[|data| - 1].code != SENTINEL
  {
    match Fill(Init(mode, data), DecodeAll(lines, target), level, mode, target)
    case Complete(s) => Complete(Repair(s.buffer, s.offenders))
    case Exhausted => Exhausted
    case IndexError => IndexError
  }

  /** While nothing has been written past slot 0, a corrupted line is dropped with no change. */
  lemma StepDropsEarlyCorruption(s: State, p: Packet, level: int, mode: Mode, target: int)
    requires |s.buffer| >= 1 && s.i == 0 && p.Corrupted?
    ensures Step(s, p, level, mode, target) == Some(s)
  {
  }

  /** Before the trigger, a valid line that does not fire overwrites slot 0 only, with the running
      time and its own code, and becomes the previous code. */
  lemma StepBeforeTrigger(s: State, p: Packet, level: int, mode: Mode, target: int)
    requires Consistent(s) && !s.triggered
    requires p.Valid? && !Fires(mode, level, s.last.code, p.code)
    ensures var r := Step(s, p, level, mode, target);
      && r.Some?
      && !r.value.triggered && r.value.i == 0 && r.value.offenders == s.offenders
      && r.value.last == Sample(s.last.time + p.delta, p.code)
      && r.value.buffer[0] == r.value.last
      && forall k :: 1 <= k < |s.buffer| ==> r.value.buffer[k] == s.buffer[k]
  {
  }

  /** When a valid line fires the trigger, slot 0 gets time 0 and the previous code, slot 1 gets
      the line's delay and code, and recording continues at index 1. */
  lemma StepFires(s: State, p: Packet, level: int, mode: Mode, target: int)
    requires Consistent(s) && !s.triggered
    requires p.Valid? && Fires(mode, level, s.last.code, p.code)
    ensures var r := Step(s, p, level, mode, target);
      && r.Some?
      && r.value.triggered && r.value.i == 1 && r.value.offenders == s.offenders
      && r.value.buffer[0] == Sample(0, s.last.code)
      && r.value.buffer[1] == Sample(p.delta, p.code)
      && forall k :: 2 <= k < |s.buffer| ==> r.value.buffer[k] == s.buffer[k]
  {
  }

  /** Once recording, each line writes the next slot: the time advances by the line's delay and
      the code is the line's code, or by the target interval with code 0 for a corrupted line,
      whose index is recorded as the slot written just before. */
  lemma StepWhileRecording(s: State, p: Packet, level: int, mode: Mode, target: int)
    requires Consistent(s) && s.triggered && 1 <= s.i < |s.buffer| - 1
    ensures var r := Step(s, p, level, mode, target);
      && r.Some?
      && r.value.triggered && r.value.i == s.i + 1
      && r.value.buffer == s.buffer[s.i + 1 := r.value.last]
      && (p.Valid? ==>
            r.value.last == Sample(s.last.time + p.delta, p.code)
            && r.value.offenders == s.offenders)
      && (p.Corrupted? ==>
            r.value.last == Sample(s.last.time + target, 0)
            && r.value.offenders == s.offenders + [s.i])
  {
  }
}
