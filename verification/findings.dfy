/** The repair pass, as written and as evidently intended.

    The loop records, for a corrupted line, the index of the slot written just before the
    placeholder, and the repair then replaces the code of that recorded slot by the mean of its
    neighbours. The slot it rewrites therefore holds a valid sample, while the placeholder after
    it keeps code 0. The intended repair rewrites the placeholder, slot `k + 1`, from its own
    neighbours and leaves every valid sample alone. */
module RepairFinding {
  import opened Wrappers
  import opened PacketDecoder
  import opened Trigger
  import opened Acquisition
  import opened AcquisitionReference
  import opened FrameProperties

  /** The code a placeholder after slot `k` gets: the truncated mean of slot `k` and slot `k + 2`,
      or the code of slot `k` when the placeholder is the last slot. */
  function PlaceholderCode(b: Buffer, k: nat): int
    requires k + 1 < |b|
  {
    if k + 2 < |b| then Half(b[k].code + b[k + 2].code) else b[k].code
  }

  /** For each offender `k`, in recorded order, rewrites the code of the placeholder slot `k + 1`. */
  function RepairPlaceholders(b: Buffer, offenders: seq<nat>): (r: Buffer)
    requires forall j :: 0 <= j < |offenders| ==> offenders[j] + 1 < |b|
    ensures |r| == |b|
    ensures forall k {:trigger r[k]} :: 0 <= k < |b| ==> r[k].time == b[k].time
    // only placeholder slots change
    ensures forall k {:trigger r[k]} :: 0 <= k < |b| && (k == 0 || k - 1 !in offenders) ==> r[k] == b[k]
    decreases |offenders|
  {
    if |offenders| == 0 then b
    else
      var k := offenders[0];
      RepairPlaceholders(b[k + 1 := Sample(b[k + 1].time, PlaceholderCode(b, k))], offenders[1..])
  }

  /** One acquisition cycle with the intended repair. */
  function AcquireIntended(lines: seq<Line>, level: int, mode: Mode, data: Buffer, target: int)
    : (r: Outcome<Buffer>)
    requires |data| >= 2
    ensures r.Complete? ==> |r.value| == |data|
  {
    match Fill(Init(mode, data), DecodeAll(lines, target), level, mode, target)
    case Complete(s) => Complete(RepairPlaceholders(s.buffer, s.offenders))
    case Exhausted => Exhausted
    case IndexError => IndexError
  }

  /** Slot `k + 1` of `r` holds the placeholder code computed from slot `k` of `r` and slot
      `k + 2` of `b`. */
  predicate PlaceholderFilled(r: Buffer, b: Buffer, k: int)
  {
    0 <= k && k + 1 < |b| && |r| == |b|
    && r[k + 1].code == (if k + 2 < |b| then Half(r[k].code + b[k + 2].code) else r[k].code)
  }

  /** One intended repair step: the first offender's placeholder, then the rest of the list. */
  lemma RepairPlaceholdersFirst(b: Buffer, offenders: seq<nat>)
    requires |offenders| > 0 && IncreasingOffenders(b, offenders)
    ensures var k := offenders[0];
      var b1 := b[k + 1 := Sample(b[k + 1].time, PlaceholderCode(b, k))];
      && IncreasingOffenders(b1, offenders[1..])
      && RepairPlaceholders(b, offenders) == RepairPlaceholders(b1, offenders[1..])
      && (forall j :: 0 <= j < |offenders| - 1 ==> k < offenders[1..][j])
  {
    var k := offenders[0];
    forall j | 0 <= j < |offenders| - 1
      ensures k < offenders[1..][j]
    {
      assert offenders[1..][j] == offenders[j + 1];
    }
  }

  /** Rewriting one slot below `o + 2` keeps a filled placeholder after `o` that holds against the
      rewritten buffer. */
  lemma FilledBelow(r: Buffer, b: Buffer, j: nat, v: Sample, o: int)
    requires j < |b| && j < o + 2 && PlaceholderFilled(r, b[j := v], o)
    ensures PlaceholderFilled(r, b, o)
  {
    if o + 2 < |b| {
      assert b[j := v][o + 2] == b[o + 2];
    }
  }

  /** The intended repair, for increasing offenders: each placeholder ends with the truncated
      mean of the final code before it and the code after it as the fill left it. */
  lemma {:induction false} RepairPlaceholdersFill(b: Buffer, offenders: seq<nat>)
    requires IncreasingOffenders(b, offenders)
    ensures forall a :: 0 <= a < |offenders| ==>
      PlaceholderFilled(RepairPlaceholders(b, offenders), b, offenders[a])
    decreases |offenders|
  {
    if |offenders| > 0 {
      var k := offenders[0];
      var rest := offenders[1..];
      var v := Sample(b[k + 1].time, PlaceholderCode(b, k));
      var b1 := b[k + 1 := v];
      RepairPlaceholdersFirst(b, offenders);
      RepairPlaceholdersFill(b1, rest);
      var r := RepairPlaceholders(b1, rest);
      // later offenders lie above k, so they rewrite slots above k + 1 only
      assert k !in rest && k - 1 !in rest;
      assert r[k + 1] == b1[k + 1] && r[k] == b1[k];
      assert PlaceholderFilled(r, b, k);
      forall a | 1 <= a < |offenders|
        ensures PlaceholderFilled(r, b, offenders[a])
      {
        assert offenders[a] == rest[a - 1];
        FilledBelow(r, b, k + 1, v, offenders[a]);
      }
    }
  }

  /** The intended property: in a complete frame, the intended repair keeps the sample of every
      valid packet and fills every placeholder from its neighbours. */
  lemma IntendedRepairKeepsValidSamples(ps: seq<Packet>, p: nat, level: int, mode: Mode, data: Buffer,
                                        target: int)
    requires |data| >= 2
    requires StartIndex(ps, InitialLastCode(mode), level, mode) == Some(p)
    requires Fill(Init(mode, data), ps, level, mode, target).Complete?
    ensures p + |data| - 1 <= |ps|
    ensures var s := Fill(Init(mode, data), ps, level, mode, target).value;
      var r := RepairPlaceholders(s.buffer, s.offenders);
      var recorded := ps[p .. p + |data| - 1];
      && r[0] == s.buffer[0]
      && (forall k :: 0 <= k < |recorded| && recorded[k].Valid? ==> r[k + 1] == s.buffer[k + 1])
      && (forall a :: 0 <= a < |s.offenders| ==> PlaceholderFilled(r, s.buffer, s.offenders[a]))
  {
    var s0 := Init(mode, data);
    assert Consistent(s0);
    var s := Fill(s0, ps, level, mode, target).value;
    CompletePlaceholders(ps, p, level, mode, data, target);
    assert IncreasingOffenders(s.buffer, s.offenders);
    RepairPlaceholdersFill(s.buffer, s.offenders);
    var r := RepairPlaceholders(s.buffer, s.offenders);
    var recorded := ps[p .. p + |data| - 1];
    forall k | 0 <= k < |recorded| && recorded[k].Valid?
      ensures r[k + 1] == s.buffer[k + 1]
    {
      assert k !in s.offenders;
    }
  }

  /** In a complete fill, the intended repair leaves slot `k + 1` with the code of recorded packet
      `k` when that packet is valid. */
  lemma {:induction false} IntendedRepairKeepsValidCodes(ps: seq<Packet>, p: nat, level: int, mode: Mode, data: Buffer,
                                      target: int)
    requires |data| >= 2
    requires StartIndex(ps, InitialLastCode(mode), level, mode) == Some(p)
    requires Fill(Init(mode, data), ps, level, mode, target).Complete?
    ensures p + |data| - 1 <= |ps|
    ensures var s := Fill(Init(mode, data), ps, level, mode, target).value;
      var r := RepairPlaceholders(s.buffer, s.offenders);
      var recorded := ps[p .. p + |data| - 1];
      forall k :: 0 <= k < |recorded| && recorded[k].Valid? ==> r[k + 1].code == recorded[k].code
  {
    IntendedRepairKeepsValidSamples(ps, p, level, mode, data, target);
    CompleteFrame(ps, p, level, mode, data, target);
    var seed := InitialLastCode(mode);
    var slot0 := if mode == Off then data[0] else Sample(0, LastValidCode(ps[..p], seed));
    RecordedSlots(slot0, ps[p .. p + |data| - 1], target);
  }

  /** The intended property over the raw lines: in a complete cycle with the intended repair,
      slot `k + 1` keeps the code of every valid line recorded into it, and each placeholder is
      filled from its neighbours. */
  lemma {:induction false} AcquireIntendedKeepsValidCodes(lines: seq<Line>, p: nat, level: int, mode: Mode, data: Buffer,
                                       target: int)
    requires |data| >= 2
    requires StartIndex(DecodeAll(lines, target), InitialLastCode(mode), level, mode) == Some(p)
    requires Fill(Init(mode, data), DecodeAll(lines, target), level, mode, target).Complete?
    ensures p + |data| - 1 <= |lines|
    ensures var r := AcquireIntended(lines, level, mode, data, target);
      var s := Fill(Init(mode, data), DecodeAll(lines, target), level, mode, target).value;
      var run := lines[p .. p + |data| - 1];
      && r.Complete?
      && (forall k :: 0 <= k < |run| && Decode(run[k], target).Valid? ==>
            r.value[k + 1].code == Decode(run[k], target).code)
      && (forall a :: 0 <= a < |s.offenders| ==> PlaceholderFilled(r.value, s.buffer, s.offenders[a]))
  {
    var ps := DecodeAll(lines, target);
    IntendedRepairKeepsValidSamples(ps, p, level, mode, data, target);
    IntendedRepairKeepsValidCodes(ps, p, level, mode, data, target);
    var recorded := ps[p .. p + |data| - 1];
    var run := lines[p .. p + |data| - 1];
    forall k | 0 <= k < |run|
      ensures recorded[k] == Decode(run[k], target)
    {
      assert recorded[k] == ps[p + k];
    }
  }

  /** As written, in a complete frame, a placeholder whose slot is not itself an offender keeps
      code 0 after the repair: the repair rewrote the slot before it instead. */
  lemma RepairLeavesPlaceholders(lines: seq<Line>, p: nat, level: int, mode: Mode, data: Buffer,
                                 target: int)
    requires |data| >= 2
    requires StartIndex(DecodeAll(lines, target), InitialLastCode(mode), level, mode) == Some(p)
    requires Fill(Init(mode, data), DecodeAll(lines, target), level, mode, target).Complete?
    ensures var s := Fill(Init(mode, data), DecodeAll(lines, target), level, mode, target).value;
      var r := Acquire(lines, level, mode, data, target);
      && r.Complete?
      && forall a :: 0 <= a < |s.offenders| && s.offenders[a] + 1 !in s.offenders ==>
           r.value[s.offenders[a] + 1].code == 0
  {
    var s := Fill(Init(mode, data), DecodeAll(lines, target), level, mode, target).value;
    CompletePlaceholders(DecodeAll(lines, target), p, level, mode, data, target);
    RepairKeepsOthers(s.buffer, s.offenders);
  }

  /** Four lines on a five-slot frame without a trigger, at a 25 us interval: two samples of
      code 500, a timed-out read, and one more sample of code 500. */
  function ExampleLines(): seq<Line>
  {
    [Encode(500, 25), Encode(500, 25), [], Encode(500, 25)]
  }

  /** The example lines, decoded against the 25 us interval. */
  function ExamplePackets(): seq<Packet>
  {
    [Valid(500, 25), Valid(500, 25), Corrupted, Valid(500, 25)]
  }

  /** The example decodes as stated: three samples in the window and one empty line. */
  lemma ExampleDecodes()
    ensures DecodeAll(ExampleLines(), 25) == ExamplePackets()
  {
    DecodeEncode(500, 25, 25);
    ShortLineCorrupted([], 25);
  }

  /** The states the loop passes through on the example: `ExampleState(j)` follows `j` lines. */
  function ExampleState(j: nat): State
  {
    var b0 := [Sample(0, 0), Sample(25, 0), Sample(50, 0), Sample(75, 0), Sample(100, SENTINEL)];
    if j == 0 then State(true, Sample(0, -1), 0, [], b0)
    else if j == 1 then State(true, Sample(25, 500), 1, [], b0[1 := Sample(25, 500)])
    else if j == 2 then State(true, Sample(50, 500), 2, [], b0[1 := Sample(25, 500)][2 := Sample(50, 500)])
    else if j == 3 then
      State(true, Sample(75, 0), 3, [2], b0[1 := Sample(25, 500)][2 := Sample(50, 500)][3 := Sample(75, 0)])
    else
      State(true, Sample(100, 500), 4, [2],
            b0[1 := Sample(25, 500)][2 := Sample(50, 500)][3 := Sample(75, 0)][4 := Sample(100, 500)])
  }

  /** Each example line takes the loop from one example state to the next. */
  lemma ExampleStep(j: nat)
    requires j < 4
    ensures Step(ExampleState(j), ExamplePackets()[j], 0, Off, 25) == Some(ExampleState(j + 1))
  {
    if j == 2 {
      assert ExampleState(2).offenders + [2] == [2];
    }
  }

  /** The loop starts the example in the first example state. */
  lemma ExampleInit()
    ensures Init(Off, InitialData(5, 25)) == ExampleState(0)
  {
    var data := InitialData(5, 25);
    assert data == [Sample(0, 0), Sample(25, 0), Sample(50, 0), Sample(75, 0), Sample(100, 0)];
  }

  /** From example state `j`, the remaining lines complete the frame in the last example state. */
  lemma {:induction false} ExampleFillFrom(j: nat)
    requires j <= 4
    ensures Fill(ExampleState(j), ExamplePackets()[j..], 0, Off, 25) == Complete(ExampleState(4))
    decreases 4 - j
  {
    if j < 4 {
      var ps := ExamplePackets()[j..];
      ExampleStep(j);
      assert ps[0] == ExamplePackets()[j] && ps[1..] == ExamplePackets()[j + 1..];
      ExampleFillFrom(j + 1);
    }
  }

  /** The example frame as the loop fills it: slot 0 keeps its initial sample, slots 1, 2 and 4
      hold code 500, slot 3 is the placeholder of the timed-out read and slot 2 its offender. */
  lemma ExampleFill()
    ensures Fill(Init(Off, InitialData(5, 25)), ExamplePackets(), 0, Off, 25) == Complete(ExampleState(4))
  {
    ExampleInit();
    ExampleFillFrom(0);
    assert ExamplePackets()[0..] == ExamplePackets();
  }

  /** The repair as written on the example frame: slot 2 becomes the mean of 500 and the 0 of the
      placeholder, which itself stays 0. */
  lemma ExampleRepairAsWritten()
    ensures Repair(ExampleState(4).buffer, ExampleState(4).offenders)
      == [Sample(0, 0), Sample(25, 500), Sample(50, 250), Sample(75, 0), Sample(100, 500)]
  {
    var b := ExampleState(4).buffer;
    assert b == [Sample(0, 0), Sample(25, 500), Sample(50, 500), Sample(75, 0), Sample(100, 500)];
    assert Repair(b, [2]) == Repair(b[2 := Sample(50, 250)], [2][1..]);
  }

  /** The intended repair on the example frame: the placeholder in slot 3 becomes 500. */
  lemma ExampleRepairIntended()
    ensures RepairPlaceholders(ExampleState(4).buffer, ExampleState(4).offenders)
      == [Sample(0, 0), Sample(25, 500), Sample(50, 500), Sample(75, 500), Sample(100, 500)]
  {
    var b := ExampleState(4).buffer;
    assert b == [Sample(0, 0), Sample(25, 500), Sample(50, 500), Sample(75, 0), Sample(100, 500)];
    assert PlaceholderCode(b, 2) == 500;
    assert RepairPlaceholders(b, [2]) == RepairPlaceholders(b[3 := Sample(75, 500)], [2][1..]);
  }

  /** The example frame after each repair: the repair as written halves the valid sample in
      slot 2 and leaves the placeholder in slot 3 at 0; the intended repair keeps slot 2 and gives
      slot 3 code 500. */
  lemma RepairCounterexample()
    ensures Acquire(ExampleLines(), 0, Off, InitialData(5, 25), 25)
      == Complete([Sample(0, 0), Sample(25, 500), Sample(50, 250), Sample(75, 0), Sample(100, 500)])
    ensures AcquireIntended(ExampleLines(), 0, Off, InitialData(5, 25), 25)
      == Complete([Sample(0, 0), Sample(25, 500), Sample(50, 500), Sample(75, 500), Sample(100, 500)])
  {
    ExampleDecodes();
    ExampleFill();
    ExampleRepairAsWritten();
    ExampleRepairIntended();
  }
}
