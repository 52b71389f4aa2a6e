/** What a complete frame looks like, read off the declarative fill: the packets it was recorded
    from, the running times, the placeholders, and the offender list that names them. */
module FrameProperties {
  import opened Wrappers
  import opened PacketDecoder
  import opened Trigger
  import opened Acquisition
  import opened AcquisitionReference

  /** A complete frame holds slot 0 and the samples of the readings, with the flagged positions
      as offenders. */
  lemma FrameComplete(slot0: Sample, rs: seq<Reading>, flags: seq<bool>, more: bool)
    requires Frame(slot0, rs, flags, more).Complete?
    ensures Frame(slot0, rs, flags, more).value == ([slot0] + Accumulate(0, rs), Positions(flags, 0))
  {
  }

  /** A complete frame from packet `p` was recorded from the packets `p .. p + |data| - 2`. */
  lemma FrameFromComplete(ps: seq<Packet>, p: nat, previous: int, mode: Mode, data: Buffer, target: int)
    requires |data| >= 2 && p < |ps|
    requires FrameFrom(ps, p, previous, mode, data, target).Complete?
    ensures p + |data| - 1 <= |ps|
    ensures var recorded := ps[p .. p + |data| - 1];
      var slot0 := if mode == Off then data[0] else Sample(0, previous);
      FrameFrom(ps, p, previous, mode, data, target).value
      == ([slot0] + Accumulate(0, Readings(recorded, target)), Positions(CorruptFlags(recorded), 0))
  {
    var recorded := ps[p .. p + |data| - 1];
    var slot0 := if mode == Off then data[0] else Sample(0, previous);
    FrameComplete(slot0, Readings(recorded, target), CorruptFlags(recorded), |ps| > p + |data| - 1);
  }

  /** The packet at the start index is valid. */
  lemma StartPacketValid(ps: seq<Packet>, p: nat, level: int, mode: Mode)
    requires StartIndex(ps, InitialLastCode(mode), level, mode) == Some(p)
    ensures p < |ps| && ps[p].Valid?
  {
    assert StartsAt(ps, p, InitialLastCode(mode), level, mode);
  }

  /** A complete declarative fill was recorded from the `|data| - 1` packets from the start index
      `p` on: slot 0 is the seed sample, slot `k + 1` holds packet `p + k`, and the offenders are the
      positions of the corrupted ones among them. */
  lemma ReferenceComplete(ps: seq<Packet>, p: nat, level: int, mode: Mode, data: Buffer, target: int)
    requires |data| >= 2
    requires StartIndex(ps, InitialLastCode(mode), level, mode) == Some(p)
    requires ReferenceFill(ps, level, mode, data, target).Complete?
    ensures p + |data| - 1 <= |ps|
    ensures var seed := InitialLastCode(mode);
      var recorded := ps[p .. p + |data| - 1];
      var slot0 := if mode == Off then data[0] else Sample(0, LastValidCode(ps[..p], seed));
      ReferenceFill(ps, level, mode, data, target).value
      == ([slot0] + Accumulate(0, Readings(recorded, target)), Positions(CorruptFlags(recorded), 0))
  {
    var seed := InitialLastCode(mode);
    StartPacketValid(ps, p, level, mode);
    FrameFromComplete(ps, p, LastValidCode(ps[..p], seed), mode, data, target);
  }

  /** A complete fill has a start index. */
  lemma CompleteStarts(ps: seq<Packet>, level: int, mode: Mode, data: Buffer, target: int)
    requires |data| >= 2
    requires Fill(Init(mode, data), ps, level, mode, target).Complete?
    ensures StartIndex(ps, InitialLastCode(mode), level, mode).Some?
  {
    FillMatchesReference(ps, level, mode, data, target);
  }

  /** The same, for a complete fill of the loop. */
  lemma CompleteFrame(ps: seq<Packet>, p: nat, level: int, mode: Mode, data: Buffer, target: int)
    requires |data| >= 2
    requires StartIndex(ps, InitialLastCode(mode), level, mode) == Some(p)
    requires Fill(Init(mode, data), ps, level, mode, target).Complete?
    ensures p + |data| - 1 <= |ps|
    ensures var seed := InitialLastCode(mode);
      var s := Fill(Init(mode, data), ps, level, mode, target).value;
      var recorded := ps[p .. p + |data| - 1];
      var slot0 := if mode == Off then data[0] else Sample(0, LastValidCode(ps[..p], seed));
      && ps[p].Valid?
      && s.buffer == [slot0] + Accumulate(0, Readings(recorded, target))
      && s.offenders == Positions(CorruptFlags(recorded), 0)
  {
    FillMatchesReference(ps, level, mode, data, target);
    StartPacketValid(ps, p, level, mode);
    ReferenceComplete(ps, p, level, mode, data, target);
  }

  /** With a positive target every reading advances the clock: a valid delay lies in the window
      above 0.8 times the target, and a corrupted packet counts as the target itself. */
  lemma ContributionAdvances(packet: Packet, target: int)
    requires target > 0 && (packet.Valid? ==> InWindow(packet.delta, target))
    ensures Contribution(packet, target).delta > 0
  {
  }

  /** What a recorded sequence of packets writes into slot `k + 1`. */
  lemma RecordedSlot(slot0: Sample, recorded: seq<Packet>, target: int, k: nat)
    requires k < |recorded|
    ensures var b := [slot0] + Accumulate(0, Readings(recorded, target));
      && |b| == |recorded| + 1
      && b[k + 1].code == Contribution(recorded[k], target).code
      && b[k + 1].time == (if k == 0 then 0 else b[k].time) + Contribution(recorded[k], target).delta
  {
    var rs := Readings(recorded, target);
    var acc := Accumulate(0, rs);
    var b := [slot0] + acc;
    assert b[k + 1] == acc[k] && rs[k] == Contribution(recorded[k], target);
    if k > 0 {
      assert b[k] == acc[k - 1];
    }
  }

  /** Slot by slot, what a recorded sequence of packets writes. */
  lemma RecordedSlots(slot0: Sample, recorded: seq<Packet>, target: int)
    ensures var b := [slot0] + Accumulate(0, Readings(recorded, target));
      && |b| == |recorded| + 1
      && b[0] == slot0
      && (|recorded| > 0 ==> b[1].time == Contribution(recorded[0], target).delta)
      && (forall k :: 0 <= k < |recorded| ==> b[k + 1].code == Contribution(recorded[k], target).code)
      && (forall k :: 1 <= k < |recorded| ==>
            b[k + 1].time == b[k].time + Contribution(recorded[k], target).delta)
  {
    var b := [slot0] + Accumulate(0, Readings(recorded, target));
    if |recorded| > 0 {
      RecordedSlot(slot0, recorded, target, 0);
    }
    forall k | 0 <= k < |recorded|
      ensures b[k + 1].code == Contribution(recorded[k], target).code
    {
      RecordedSlot(slot0, recorded, target, k);
    }
    forall k | 1 <= k < |recorded|
      ensures b[k + 1].time == b[k].time + Contribution(recorded[k], target).delta
    {
      RecordedSlot(slot0, recorded, target, k);
    }
  }

  /** With a positive target, the times of a recorded frame strictly increase from slot 1 on, and
      slot 1 lies after time 0. */
  lemma RecordedTimesIncrease(slot0: Sample, recorded: seq<Packet>, target: int)
    requires target > 0 && AllInWindow(recorded, target)
    ensures var b := [slot0] + Accumulate(0, Readings(recorded, target));
      && (forall k :: 1 <= k < |b| - 1 ==> b[k].time < b[k + 1].time)
      && (|recorded| > 0 ==> b[1].time > 0)
  {
    var b := [slot0] + Accumulate(0, Readings(recorded, target));
    forall k | 1 <= k < |b| - 1
      ensures b[k].time < b[k + 1].time
    {
      RecordedSlot(slot0, recorded, target, k);
      ContributionAdvances(recorded[k], target);
    }
    if |recorded| > 0 {
      RecordedSlot(slot0, recorded, target, 0);
      ContributionAdvances(recorded[0], target);
    }
  }

  /** Slot `k + 1` of a frame built from readings holds reading `k`, timed after slot `k`. */
  lemma AccumulatedSlot(slot0: Sample, rs: seq<Reading>, k: nat)
    requires 1 <= k < |rs|
    ensures var b := [slot0] + Accumulate(0, rs);
      b[k + 1] == Sample(b[k].time + rs[k].delta, rs[k].code)
  {
    var acc := Accumulate(0, rs);
    assert ([slot0] + acc)[k + 1] == acc[k] && ([slot0] + acc)[k] == acc[k - 1];
  }

  /** The listed positions are exactly the set flags. */
  lemma PositionsExact(flags: seq<bool>, k: nat)
    requires k < |flags|
    ensures k in Positions(flags, 0) <==> flags[k]
  {
    if flags[k] {
      PositionsComplete(flags, 0, k);
    }
  }

  /** Every offender `k` lies in `1 .. |b| - 2`, and slot `k + 1` is a placeholder: the target
      interval after slot `k`, with code 0. */
  predicate PlaceholdersAfter(b: Buffer, offenders: seq<nat>, target: int)
  {
    forall a :: 0 <= a < |offenders| ==>
      && 1 <= offenders[a] <= |b| - 2
      && b[offenders[a] + 1] == Sample(b[offenders[a]].time + target, 0)
  }

  /** A slot `k` past slot 0 is an offender exactly when recorded packet `k`, the one written into
      slot `k + 1`, is corrupted. */
  predicate OffendersMark(offenders: seq<nat>, recorded: seq<Packet>)
  {
    forall k :: 1 <= k < |recorded| ==> (k in offenders <==> recorded[k].Corrupted?)
  }

  /** In a frame built from readings whose flagged ones are placeholder readings (the target
      interval, code 0), and whose first reading is not flagged, every flagged position lies in
      `1 .. |b| - 2` and is the slot written just before a placeholder. */
  lemma FlaggedPlaceholders(slot0: Sample, rs: seq<Reading>, flags: seq<bool>, target: int)
    requires |rs| == |flags| && |flags| > 0 && !flags[0]
    requires forall j {:trigger flags[j]} :: 0 <= j < |flags| && flags[j] ==> rs[j] == Reading(target, 0)
    ensures PlaceholdersAfter([slot0] + Accumulate(0, rs), Positions(flags, 0), target)
  {
    var b := [slot0] + Accumulate(0, rs);
    var o := Positions(flags, 0);
    forall a | 0 <= a < |o|
      ensures 1 <= o[a] <= |b| - 2 && b[o[a] + 1] == Sample(b[o[a]].time + target, 0)
    {
      var k := o[a];
      assert flags[k];
      AccumulatedSlot(slot0, rs, k);
    }
  }

  /** In a recorded frame whose first packet is valid, every flagged position lies in
      `1 .. |b| - 2` and is the slot written just before a placeholder. */
  lemma RecordedPlaceholders(slot0: Sample, recorded: seq<Packet>, target: int)
    requires |recorded| > 0 && recorded[0].Valid?
    ensures PlaceholdersAfter([slot0] + Accumulate(0, Readings(recorded, target)),
                              Positions(CorruptFlags(recorded), 0), target)
  {
    var rs := Readings(recorded, target);
    var flags := CorruptFlags(recorded);
    forall j | 0 <= j < |flags| && flags[j]
      ensures rs[j] == Reading(target, 0)
    {
    }
    FlaggedPlaceholders(slot0, rs, flags, target);
  }

  /** In a recorded frame, the flagged positions mark exactly the corrupted packets. */
  lemma RecordedOffenders(recorded: seq<Packet>)
    ensures OffendersMark(Positions(CorruptFlags(recorded), 0), recorded)
  {
    var flags := CorruptFlags(recorded);
    forall k | 1 <= k < |recorded|
      ensures k in Positions(flags, 0) <==> recorded[k].Corrupted?
    {
      PositionsExact(flags, k);
    }
  }

  /** The window holds for any run of packets cut from a sequence where it holds. */
  lemma InWindowSlice(ps: seq<Packet>, p: nat, n: nat, target: int)
    requires p + n <= |ps| && AllInWindow(ps, target)
    ensures AllInWindow(ps[p .. p + n], target)
  {
    var run := ps[p .. p + n];
    forall k | 0 <= k < n && run[k].Valid?
      ensures InWindow(run[k].delta, target)
    {
      assert run[k] == ps[p + k];
    }
  }

  /** In a complete frame with a positive target, times strictly increase from slot 1 on; with a
      trigger, slot 0 is at time 0, strictly before slot 1. */
  lemma CompleteTimesIncrease(ps: seq<Packet>, level: int, mode: Mode, data: Buffer, target: int)
    requires |data| >= 2 && target > 0 && AllInWindow(ps, target)
    requires Fill(Init(mode, data), ps, level, mode, target).Complete?
    ensures var b := Fill(Init(mode, data), ps, level, mode, target).value.buffer;
      && |b| == |data|
      && (forall k :: 1 <= k < |b| - 1 ==> b[k].time < b[k + 1].time)
      && (mode != Off ==> b[0].time == 0 < b[1].time)
  {
    var seed := InitialLastCode(mode);
    CompleteStarts(ps, level, mode, data, target);
    var p := StartIndex(ps, seed, level, mode).value;
    CompleteFrame(ps, p, level, mode, data, target);
    var slot0 := if mode == Off then data[0] else Sample(0, LastValidCode(ps[..p], seed));
    var recorded := ps[p .. p + |data| - 1];
    InWindowSlice(ps, p, |data| - 1, target);
    RecordedTimesIncrease(slot0, recorded, target);
  }

  /** In a complete frame recorded from start index `p`, the offenders are exactly the slots
      written just before a placeholder: offender `k` lies in `1 .. N - 2`, slot `k + 1` holds the
      target interval after slot `k` and code 0, and a slot `k` in `1 .. N - 2` is an offender iff
      the packet written into slot `k + 1`, packet `p + k`, was corrupted. */
  lemma CompletePlaceholders(ps: seq<Packet>, p: nat, level: int, mode: Mode, data: Buffer, target: int)
    requires |data| >= 2
    requires StartIndex(ps, InitialLastCode(mode), level, mode) == Some(p)
    requires Fill(Init(mode, data), ps, level, mode, target).Complete?
    ensures p + |data| - 1 <= |ps|
    ensures var s := Fill(Init(mode, data), ps, level, mode, target).value;
      && |s.buffer| == |data|
      && PlaceholdersAfter(s.buffer, s.offenders, target)
      && OffendersMark(s.offenders, ps[p .. p + |data| - 1])
  {
    CompleteFrame(ps, p, level, mode, data, target);
    var seed := InitialLastCode(mode);
    var slot0 := if mode == Off then data[0] else Sample(0, LastValidCode(ps[..p], seed));
    var recorded := ps[p .. p + |data| - 1];
    assert recorded[0] == ps[p];
    RecordedPlaceholders(slot0, recorded, target);
    RecordedOffenders(recorded);
  }

  /** Offender lists as the loop records them: in range for the repair, strictly increasing. */
  predicate IncreasingOffenders(b: Buffer, offenders: seq<nat>)
  {
    && (forall j :: 0 <= j < |offenders| ==> 1 <= offenders[j] && offenders[j] + 1 < |b|)
    && (forall a, c :: 0 <= a < c < |offenders| ==> offenders[a] < offenders[c])
  }

  /** One repair step: the first offender's slot, then the rest of the list. */
  lemma RepairFirst(b: Buffer, offenders: seq<nat>)
    requires |offenders| > 0 && IncreasingOffenders(b, offenders)
    ensures var k := offenders[0];
      var b1 := b[k := Sample(b[k].time, Half(b[k - 1].code + b[k + 1].code))];
      && IncreasingOffenders(b1, offenders[1..])
      && Repair(b, offenders) == Repair(b1, offenders[1..])
  {
  }

  /** Slot `k` of `r` holds the truncated mean of slot `k - 1` of `r` and slot `k + 1` of `b`. */
  predicate AveragedAt(r: Buffer, b: Buffer, k: int)
  {
    1 <= k && k + 1 < |b| && k < |r| && r[k].code == Half(r[k - 1].code + b[k + 1].code)
  }

  /** Rewriting one slot below `o` keeps an average at `o` that holds against the rewritten
      buffer. */
  lemma AveragedAtBelow(r: Buffer, b: Buffer, k: nat, v: Sample, o: int)
    requires k < |b| && k < o && AveragedAt(r, b[k := v], o)
    ensures AveragedAt(r, b, o)
  {
    assert b[k := v][o + 1] == b[o + 1];
  }

  /** The first offender's slot ends with the truncated mean of its neighbours: the later
      offenders lie above it and rewrite slots above it only. */
  lemma RepairFirstAveraged(b: Buffer, offenders: seq<nat>)
    requires |offenders| > 0 && IncreasingOffenders(b, offenders)
    ensures AveragedAt(Repair(b, offenders), b, offenders[0])
  {
    var k := offenders[0];
    var rest := offenders[1..];
    var b1 := b[k := Sample(b[k].time, Half(b[k - 1].code + b[k + 1].code))];
    RepairFirst(b, offenders);
    var r := Repair(b1, rest);
    RepairKeepsOthers(b1, rest);
    assert k !in rest && k - 1 !in rest;
    assert r[k] == b1[k] && r[k - 1] == b1[k - 1];
  }

  /** The repair as written, for increasing offenders: offender `a`'s slot ends with the truncated
      mean of the final code before it and the code after it as the fill left it. */
  lemma {:induction false} RepairAveragedAt(b: Buffer, offenders: seq<nat>, a: nat)
    requires IncreasingOffenders(b, offenders) && a < |offenders|
    ensures AveragedAt(Repair(b, offenders), b, offenders[a])
    decreases |offenders|
  {
    if a == 0 {
      RepairFirstAveraged(b, offenders);
    } else {
      var k := offenders[0];
      var v := Sample(b[k].time, Half(b[k - 1].code + b[k + 1].code));
      var b1 := b[k := v];
      var rest := offenders[1..];
      RepairFirst(b, offenders);
      RepairAveragedAt(b1, rest, a - 1);
      assert offenders[a] == rest[a - 1];
      AveragedAtBelow(Repair(b1, rest), b, k, v, offenders[a]);
    }
  }

  /** The same, for every offender. */
  lemma RepairAverages(b: Buffer, offenders: seq<nat>)
    requires IncreasingOffenders(b, offenders)
    ensures forall a :: 0 <= a < |offenders| ==> AveragedAt(Repair(b, offenders), b, offenders[a])
  {
    forall a | 0 <= a < |offenders|
      ensures AveragedAt(Repair(b, offenders), b, offenders[a])
    {
      RepairAveragedAt(b, offenders, a);
    }
  }
}
