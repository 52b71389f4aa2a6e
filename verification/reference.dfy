/** A declarative description of what one fill of the acquisition loop produces, and the proof
    that the loop computes it.

    The description is over the decoded lines (packets). Recording starts at the first valid
    packet that fires the trigger against the last valid code before it (in Off mode: at the first
    valid packet). From that packet on, the next N - 1 packets fill slots 1 .. N - 1 with running times and codes, a corrupted packet standing for the target
    interval and code 0. Slot 0 holds time 0 and the previous valid code (in Off mode it keeps
    the caller's value). */
module AcquisitionReference {
  import opened Wrappers
  import opened PacketDecoder
  import opened Trigger
  import opened Acquisition

  /** What one packet contributes once recording: a delay and a code. */
  datatype Reading = Reading(delta: int, code: int)

  /** A valid packet contributes its decoded pair; a corrupted one the target interval and code 0. */
  function Contribution(packet: Packet, target: int): Reading
  {
    match packet
    case Valid(code, delta) => Reading(delta, code)
    case Corrupted => Reading(target, 0)
  }

  function Readings(ps: seq<Packet>, target: int): (rs: seq<Reading>)
    ensures |rs| == |ps|
    ensures forall j {:trigger rs[j]} :: 0 <= j < |ps| ==> rs[j] == Contribution(ps[j], target)
  {
    seq(|ps|, j requires 0 <= j < |ps| => Contribution(ps[j], target))
  }

  /** The samples of consecutive readings, with times running on from `t0`. */
  function Accumulate(t0: int, rs: seq<Reading>): (b: Buffer)
    ensures |b| == |rs|
    ensures forall j {:trigger rs[j]} :: 0 <= j < |rs| ==> b[j].code == rs[j].code
    ensures |rs| > 0 ==> b[0].time == t0 + rs[0].delta
    ensures forall j {:trigger rs[j]} :: 0 < j < |rs| ==> b[j].time == b[j - 1].time + rs[j].delta
    decreases |rs|
  {
    if |rs| == 0 then []
    else [Sample(t0 + rs[0].delta, rs[0].code)] + Accumulate(t0 + rs[0].delta, rs[1..])
  }

  /** The code of the last valid packet of `ps`, or `seed` when there is none. */
  function LastValidCode(ps: seq<Packet>, seed: int): int
    decreases |ps|
  {
    if |ps| == 0 then seed
    else
      match ps[|ps| - 1]
      case Valid(code, _) => code
      case Corrupted => LastValidCode(ps[..|ps| - 1], seed)
  }

  /** Whether `packet` starts the recording when `previous` is the last valid code before it. */
  predicate Starts(packet: Packet, previous: int, level: int, mode: Mode)
  {
    && packet.Valid?
    && (mode == Off || Fires(mode, level, previous, packet.code))
  }

  predicate StartsAt(ps: seq<Packet>, k: nat, seed: int, level: int, mode: Mode)
    requires k < |ps|
  {
    Starts(ps[k], LastValidCode(ps[..k], seed), level, mode)
  }

  /** Dropping a first packet moves the last valid code's seed forward. */
  lemma {:induction false} LastValidCodeShift(ps: seq<Packet>, k: nat, seed: int)
    requires k < |ps|
    ensures LastValidCode(ps[..k + 1], seed) ==
      LastValidCode(ps[1..][..k], LastValidCode(ps[..1], seed))
  {
    if k > 0 {
      assert ps[..k + 1][..k] == ps[..k];
      assert ps[1..][..k][..k - 1] == ps[1..][..k - 1];
      assert ps[..k + 1][k] == ps[1..][..k][k - 1];
      LastValidCodeShift(ps, k - 1, seed);
    }
  }

  /** The index of the packet at which recording starts: the first one that starts it. */
  function StartIndex(ps: seq<Packet>, seed: int, level: int, mode: Mode): (r: Option<nat>)
    ensures r.Some? ==> r.value < |ps| && StartsAt(ps, r.value, seed, level, mode)
    ensures forall k :: 0 <= k < |ps| && (r.None? || k < r.value) ==>
      !StartsAt(ps, k, seed, level, mode)
    decreases |ps|
  {
    if |ps| == 0 then None
    else if Starts(ps[0], seed, level, mode) then
      assert ps[..0] == [];
      Some(0)
    else
      var seed' := LastValidCode(ps[..1], seed);
      var rest := StartIndex(ps[1..], seed', level, mode);
      assert forall k :: 1 <= k < |ps| ==>
        (StartsAt(ps, k, seed, level, mode)
         <==> StartsAt(ps[1..], k - 1, seed', level, mode))
      by {
        forall k | 1 <= k < |ps|
          ensures StartsAt(ps, k, seed, level, mode)
            <==> StartsAt(ps[1..], k - 1, seed', level, mode)
        {
          LastValidCodeShift(ps, k - 1, seed);
          assert ps[1..][k - 1] == ps[k];
        }
      }
      assert ps[..0] == [];
      match rest
      case None => None
      case Some(k) => Some(k + 1)
  }

  /** Which of `ps` are corrupted. */
  function CorruptFlags(ps: seq<Packet>): (flags: seq<bool>)
    ensures |flags| == |ps|
    ensures forall j {:trigger flags[j]} :: 0 <= j < |ps| ==> (flags[j] <==> ps[j].Corrupted?)
  {
    seq(|ps|, j requires 0 <= j < |ps| => ps[j].Corrupted?)
  }

  /** The positions of the set flags, plus `base`, in increasing order. */
  function Positions(flags: seq<bool>, base: nat): (r: seq<nat>)
    ensures forall a :: 0 <= a < |r| ==> base <= r[a] < base + |flags| && flags[r[a] - base]
    ensures forall a, b :: 0 <= a < b < |r| ==> r[a] < r[b]
    decreases |flags|
  {
    if |flags| == 0 then []
    else
      var rest := Positions(flags[1..], base + 1);
      if flags[0] then [base] + rest else rest
  }

  /** Every set flag has its position listed. */
  lemma {:induction false} PositionsComplete(flags: seq<bool>, base: nat, j: nat)
    requires j < |flags| && flags[j]
    ensures base + j in Positions(flags, base)
    decreases |flags|
  {
    if j > 0 {
      assert flags[1..][j - 1] == flags[j];
      PositionsComplete(flags[1..], base + 1, j - 1);
    }
  }

  /** The buffer and offender list one fill of `data` ends with, declaratively. */
  function ReferenceFill(ps: seq<Packet>, level: int, mode: Mode, data: Buffer, target: int)
    : Outcome<(Buffer, seq<nat>)>
    requires |data| >= 2
  {
    var seed := InitialLastCode(mode);
    match StartIndex(ps, seed, level, mode)
    case None => Exhausted
    case Some(p) => FrameFrom(ps, p, LastValidCode(ps[..p], seed), mode, data, target)
  }

  /** The frame recorded from packet `p` on, `previous` being the last valid code before it: that
      packet and the next N - 2 fill slots 1 .. N - 1. */
  function FrameFrom(ps: seq<Packet>, p: nat, previous: int, mode: Mode, data: Buffer, target: int)
    : Outcome<(Buffer, seq<nat>)>
    requires |data| >= 2 && p < |ps|
  {
    var n := |data|;
    if |ps| < p + n - 1 then Exhausted
    else
      var recorded := ps[p .. p + n - 1];
      var slot0 := if mode == Off then data[0] else Sample(0, previous);
      Frame(slot0, Readings(recorded, target), CorruptFlags(recorded), |ps| > p + n - 1)
  }

  /** The frame of slot 0 followed by the samples of `rs`, whose corrupted readings are flagged. */
  function Frame(slot0: Sample, rs: seq<Reading>, flags: seq<bool>, more: bool): Outcome<(Buffer, seq<nat>)>
  {
    Settle([slot0] + Accumulate(0, rs), Positions(flags, 0), more)
  }

  /** How a loop that has written every slot ends: complete unless the last slot still holds the
      sentinel code, in which case the next packet, if any, is written past the end. */
  function Settle(buffer: Buffer, offenders: seq<nat>, more: bool): Outcome<(Buffer, seq<nat>)>
    requires |buffer| > 0
  {
    if buffer[|buffer| - 1].code == SENTINEL then
      if more then IndexError else Exhausted
    else Complete((buffer, offenders))
  }

  /** The observable part of a fill: the buffer and the offender list. */
  function Project(o: Outcome<State>): Outcome<(Buffer, seq<nat>)>
  {
    match o
    case Complete(s) => Complete((s.buffer, s.offenders))
    case Exhausted => Exhausted
    case IndexError => IndexError
  }

  /** A state waiting for its first recorded packet. */
  predicate Waiting(s: State, mode: Mode)
  {
    && |s.buffer| >= 2
    && s.i == 0
    && s.offenders == []
    && s.buffer[|s.buffer| - 1].code == SENTINEL
    && (s.triggered <==> mode == Off)
    && (mode == Off ==> s.last.time == 0)
  }

  /** The state right after the packet that starts the recording. */
  function Started(s: State, previous: int, packet: Packet, mode: Mode): State
    requires |s.buffer| >= 2 && packet.Valid?
  {
    var first := Sample(packet.delta, packet.code);
    var b := if mode == Off then s.buffer else s.buffer[0 := Sample(0, previous)];
    State(true, first, 1, [], b[1 := first])
  }

  /** The fill of a waiting state, resumed right after the packet that starts the recording;
      `Exhausted` when no packet starts it. */
  function FillFromStart(s: State, ps: seq<Packet>, level: int, mode: Mode, target: int): Outcome<State>
    requires |s.buffer| >= 2
  {
    match StartIndex(ps, s.last.code, level, mode)
    case None => Exhausted
    case Some(p) =>
      Fill(Started(s, LastValidCode(ps[..p], s.last.code), ps[p], mode),
           ps[p + 1..], level, mode, target)
  }

  /** A state that is recording: the write index is past slot 0. */
  predicate Recording(s: State)
  {
    && |s.buffer| >= 2
    && s.triggered
    && 1 <= s.i < |s.buffer|
    && s.last == s.buffer[s.i]
    && (s.i < |s.buffer| - 1 ==> s.buffer[|s.buffer| - 1].code == SENTINEL)
  }

  /** What a recording state ends with, declaratively, given the readings and corruption flags of
      the packets that follow: the next packets fill the remaining slots. */
  function RecordedOf(s: State, rs: seq<Reading>, flags: seq<bool>): Outcome<(Buffer, seq<nat>)>
    requires Recording(s) && |rs| == |flags|
  {
    var m := |s.buffer| - 1 - s.i;
    if |rs| < m then Exhausted
    else
      Settle(s.buffer[..s.i + 1] + Accumulate(s.last.time, rs[..m]),
             s.offenders + Positions(flags[..m], s.i), |rs| > m)
  }

  /** The waiting phase: packets are consumed until the one that starts the recording. */
  lemma {:induction false} WaitingRun(s: State, ps: seq<Packet>, level: int, mode: Mode, target: int)
    requires Waiting(s, mode)
    ensures Fill(s, ps, level, mode, target) == FillFromStart(s, ps, level, mode, target)
    decreases |ps|
  {
    if |ps| > 0 {
      var p := ps[0];
      assert ps[..0] == [];
      if Starts(p, s.last.code, level, mode) {
        assert Step(s, p, level, mode, target) == Some(Started(s, s.last.code, p, mode));
      } else if p.Corrupted? {
        assert Step(s, p, level, mode, target) == Some(s);
        WaitingRun(s, ps[1..], level, mode, target);
        ShiftStart(s, s, ps, level, mode, target);
      } else {
        var last := Sample(s.last.time + p.delta, p.code);
        var s' := s.(last := last, buffer := s.buffer[0 := last]);
        assert Step(s, p, level, mode, target) == Some(s');
        WaitingRun(s', ps[1..], level, mode, target);
        ShiftStart(s, s', ps, level, mode, target);
      }
    }
  }

  /** A first packet that does not start the recording moves the start index back by one. */
  lemma StartIndexSkip(ps: seq<Packet>, seed: int, level: int, mode: Mode)
    requires |ps| > 0 && !Starts(ps[0], seed, level, mode)
    ensures StartIndex(ps, seed, level, mode) ==
      match StartIndex(ps[1..], LastValidCode(ps[..1], seed), level, mode)
      case None => None
      case Some(k) => Some(k + 1)
  {
  }

  /** Two waiting states that differ at most in slot 0 start the recording in the same state. */
  lemma StartedSame(s: State, s': State, previous: int, packet: Packet, mode: Mode)
    requires |s.buffer| >= 2 && packet.Valid?
    requires |s'.buffer| == |s.buffer|
    requires forall k :: 1 <= k < |s.buffer| ==> s'.buffer[k] == s.buffer[k]
    requires mode == Off ==> s' == s
    ensures Started(s', previous, packet, mode) == Started(s, previous, packet, mode)
  {
    if mode != Off {
      assert s'.buffer[0 := Sample(0, previous)] == s.buffer[0 := Sample(0, previous)];
    }
  }

  /** The waiting step on a first packet that does not start the recording, seen from the whole
      input: the start index moves back by one and the started state is the same. */
  lemma ShiftStart(s: State, s': State, ps: seq<Packet>, level: int, mode: Mode, target: int)
    requires Waiting(s, mode) && Waiting(s', mode)
    requires |ps| > 0 && !Starts(ps[0], s.last.code, level, mode)
    requires s'.last.code == LastValidCode(ps[..1], s.last.code)
    requires |s'.buffer| == |s.buffer|
    requires forall k :: 1 <= k < |s.buffer| ==> s'.buffer[k] == s.buffer[k]
    requires mode == Off ==> s' == s
    ensures FillFromStart(s', ps[1..], level, mode, target) == FillFromStart(s, ps, level, mode, target)
  {
    var seed' := s'.last.code;
    StartIndexSkip(ps, s.last.code, level, mode);
    match StartIndex(ps[1..], seed', level, mode)
    case None =>
    case Some(k) =>
      LastValidCodeShift(ps, k, s.last.code);
      assert ps[1..][k] == ps[k + 1];
      assert ps[1..][k + 1..] == ps[k + 2..];
      var prev := LastValidCode(ps[..k + 1], s.last.code);
      StartedSame(s, s', prev, ps[k + 1], mode);
  }

  /** The state after one recorded reading; `bad` marks a corrupted packet. */
  function AdvanceBy(s: State, r: Reading, bad: bool): State
    requires s.i + 1 < |s.buffer|
  {
    var last := Sample(s.last.time + r.delta, r.code);
    var offenders := if bad then s.offenders + [s.i] else s.offenders;
    State(true, last, s.i + 1, offenders, s.buffer[s.i + 1 := last])
  }

  /** A recording state with a slot left writes the packet's reading into it. */
  lemma RecordingStep(s: State, packet: Packet, level: int, mode: Mode, target: int)
    requires Recording(s) && s.i < |s.buffer| - 1
    ensures Step(s, packet, level, mode, target)
      == Some(AdvanceBy(s, Contribution(packet, target), packet.Corrupted?))
    ensures Recording(AdvanceBy(s, Contribution(packet, target), packet.Corrupted?))
  {
  }

  lemma TakeOfDrop<T>(xs: seq<T>, m: nat)
    requires 0 < m <= |xs|
    ensures xs[1..][..m - 1] == xs[..m][1..]
  {
  }

  lemma TakeOfUpdate<T>(xs: seq<T>, k: nat, x: T)
    requires k < |xs|
    ensures xs[k := x][..k + 1] == xs[..k] + [x]
  {
  }

  lemma SliceHead<T>(xs: seq<T>, p: nat, k: nat)
    requires p + 1 + k <= |xs|
    ensures xs[p .. p + 1 + k] == [xs[p]] + xs[p + 1..][..k]
  {
  }

  lemma ConcatAssoc<T>(a: seq<T>, b: seq<T>, c: seq<T>)
    ensures (a + b) + c == a + (b + c)
  {
  }

  /** The first sample of a run of readings, and the run that follows it. */
  lemma AccumulateFirst(t0: int, rs: seq<Reading>)
    requires |rs| > 0
    ensures Accumulate(t0, rs)
      == [Sample(t0 + rs[0].delta, rs[0].code)] + Accumulate(t0 + rs[0].delta, rs[1..])
  {
  }

  /** Moving one reading into the state leaves the filled buffer unchanged. */
  lemma ShiftBuffer(s: State, rs: seq<Reading>, bad: bool, m: nat)
    requires s.i + 1 < |s.buffer| && 0 < m <= |rs|
    ensures var s' := AdvanceBy(s, rs[0], bad);
      s'.buffer[..s'.i + 1] + Accumulate(s'.last.time, rs[1..][..m - 1])
        == s.buffer[..s.i + 1] + Accumulate(s.last.time, rs[..m])
  {
    var s' := AdvanceBy(s, rs[0], bad);
    TakeOfDrop(rs, m);
    TakeOfUpdate(s.buffer, s.i + 1, s'.last);
    AccumulateFirst(s.last.time, rs[..m]);
    ConcatAssoc(s.buffer[..s.i + 1], [s'.last], Accumulate(s'.last.time, rs[..m][1..]));
  }

  /** Moving one corruption flag into the state leaves the offender list unchanged. */
  lemma ShiftOffenders(s: State, r: Reading, flags: seq<bool>, m: nat)
    requires s.i + 1 < |s.buffer| && 0 < m <= |flags|
    ensures var s' := AdvanceBy(s, r, flags[0]);
      s'.offenders + Positions(flags[1..][..m - 1], s'.i) == s.offenders + Positions(flags[..m], s.i)
  {
    var rest := Positions(flags[..m][1..], s.i + 1);
    assert flags[1..][..m - 1] == flags[..m][1..];
    assert flags[..m][0] == flags[0];
    assert Positions(flags[..m], s.i) == if flags[0] then [s.i] + rest else rest;
    if flags[0] {
      ConcatAssoc(s.offenders, [s.i], rest);
    }
  }

  /** `RecordedOf` once enough readings are there to fill the remaining slots. */
  lemma RecordedOfFull(s: State, rs: seq<Reading>, flags: seq<bool>, m: nat)
    requires Recording(s) && |rs| == |flags| && m == |s.buffer| - 1 - s.i <= |rs|
    ensures RecordedOf(s, rs, flags) ==
      Settle(s.buffer[..s.i + 1] + Accumulate(s.last.time, rs[..m]),
             s.offenders + Positions(flags[..m], s.i), |rs| > m)
  {
  }

  /** The declarative outcome does not change when one reading is moved into the state. */
  lemma RecordedOfShift(s: State, rs: seq<Reading>, flags: seq<bool>)
    requires Recording(s) && s.i < |s.buffer| - 1 && |rs| == |flags| > 0
    requires Recording(AdvanceBy(s, rs[0], flags[0]))
    ensures RecordedOf(AdvanceBy(s, rs[0], flags[0]), rs[1..], flags[1..]) == RecordedOf(s, rs, flags)
  {
    var m := |s.buffer| - 1 - s.i;
    var s' := AdvanceBy(s, rs[0], flags[0]);
    if |rs| >= m {
      ShiftBuffer(s, rs, flags[0], m);
      ShiftOffenders(s, rs[0], flags, m);
      RecordedOfFull(s, rs, flags, m);
      RecordedOfFull(s', rs[1..], flags[1..], m - 1);
    }
  }

  /** A recording state whose last slot is written settles on its own buffer: nothing more is
      recorded. */
  lemma RecordedOfDone(s: State, rs: seq<Reading>, flags: seq<bool>)
    requires Recording(s) && s.i == |s.buffer| - 1 && |rs| == |flags|
    ensures RecordedOf(s, rs, flags) == Settle(s.buffer, s.offenders, |rs| > 0)
  {
    RecordedOfFull(s, rs, flags, 0);
    assert rs[..0] == [] && flags[..0] == [];
    assert s.buffer[..s.i + 1] + Accumulate(s.last.time, rs[..0]) == s.buffer;
    assert s.offenders + Positions(flags[..0], s.i) == s.offenders;
  }

  /** The loop on a recording state whose last slot is written: complete once the sentinel is
      gone, otherwise out of packets or writing past the end. */
  lemma FillDone(s: State, ps: seq<Packet>, level: int, mode: Mode, target: int)
    requires Recording(s) && s.i == |s.buffer| - 1
    ensures Project(Fill(s, ps, level, mode, target)) == Settle(s.buffer, s.offenders, |ps| > 0)
  {
    if s.buffer[|s.buffer| - 1].code != SENTINEL {
      assert Fill(s, ps, level, mode, target) == Complete(s);
    } else if |ps| > 0 {
      assert Step(s, ps[0], level, mode, target).None?;
    }
  }

  /** A recording state whose last slot is written: nothing more is read. */
  lemma RecordingDone(s: State, ps: seq<Packet>, level: int, mode: Mode, target: int)
    requires Recording(s) && s.i == |s.buffer| - 1
    ensures Project(Fill(s, ps, level, mode, target))
      == RecordedOf(s, Readings(ps, target), CorruptFlags(ps))
  {
    FillDone(s, ps, level, mode, target);
    RecordedOfDone(s, Readings(ps, target), CorruptFlags(ps));
  }

  /** The readings and flags of all but the first packet. */
  lemma ReadingsTail(ps: seq<Packet>, target: int)
    requires |ps| > 0
    ensures Readings(ps, target)[1..] == Readings(ps[1..], target)
    ensures CorruptFlags(ps)[1..] == CorruptFlags(ps[1..])
  {
  }

  /** The recording phase: each packet fills the next slot until the last one is written. */
  lemma {:induction false} RecordingRun(s: State, ps: seq<Packet>, level: int, mode: Mode, target: int)
    requires Recording(s)
    ensures Project(Fill(s, ps, level, mode, target))
      == RecordedOf(s, Readings(ps, target), CorruptFlags(ps))
    decreases |ps|
  {
    if s.i == |s.buffer| - 1 {
      RecordingDone(s, ps, level, mode, target);
    } else if |ps| > 0 {
      var rs := Readings(ps, target);
      var flags := CorruptFlags(ps);
      RecordingStep(s, ps[0], level, mode, target);
      ReadingsTail(ps, target);
      RecordingRun(AdvanceBy(s, rs[0], flags[0]), ps[1..], level, mode, target);
      RecordedOfShift(s, rs, flags);
    }
  }

  /** The readings and flags of the recorded packets: the starting packet's, then the next ones'. */
  lemma RecordedReadings(first: Packet, rest: seq<Packet>, m: nat, target: int)
    requires m <= |rest|
    ensures Readings([first] + rest[..m], target)
      == [Contribution(first, target)] + Readings(rest, target)[..m]
    ensures CorruptFlags([first] + rest[..m])
      == [first.Corrupted?] + CorruptFlags(rest)[..m]
  {
    var ps := [first] + rest[..m];
    var rs := Readings(rest, target);
    var flags := CorruptFlags(rest);
    forall j | 1 <= j <= m
      ensures ps[j] == rest[j - 1] && rs[..m][j - 1] == rs[j - 1] && flags[..m][j - 1] == flags[j - 1]
    {
    }
  }

  /** The state right after the start is recording, and its first two slots are slot 0 and the
      starting packet's sample. */
  lemma StartedFacts(data: Buffer, previous: int, packet: Packet, mode: Mode, target: int)
    requires |data| >= 2 && packet.Valid?
    ensures var s1 := Started(Init(mode, data), previous, packet, mode);
      && Recording(s1)
      && |s1.buffer| == |data|
      && s1.i == 1
      && s1.offenders == []
      && s1.last == Sample(Contribution(packet, target).delta, Contribution(packet, target).code)
      && s1.buffer[..2] == [if mode == Off then data[0] else Sample(0, previous), s1.last]
  {
    var s1 := Started(Init(mode, data), previous, packet, mode);
    assert s1.buffer[..2] == [s1.buffer[0], s1.buffer[1]];
  }

  /** A state that has just recorded reading `c` in slot 1, after `slot0`, ends as the declarative
      fill of `c` followed by enough of `rs` says, a clean reading first. */
  lemma RecordedAfterStart(s1: State, slot0: Sample, c: Reading, rs: seq<Reading>, flags: seq<bool>)
    requires Recording(s1) && s1.i == 1 && s1.offenders == []
    requires s1.last == Sample(c.delta, c.code) && s1.buffer[..2] == [slot0, s1.last]
    requires |rs| == |flags| >= |s1.buffer| - 2
    ensures var m := |s1.buffer| - 2;
      RecordedOf(s1, rs, flags) == Frame(slot0, [c] + rs[..m], [false] + flags[..m], |rs| > m)
  {
    var m := |s1.buffer| - 2;
    RecordedOfFull(s1, rs, flags, m);
    PrependReading(slot0, c, rs[..m]);
    PrependClean(flags[..m]);
    assert s1.buffer[..s1.i + 1] == [slot0, s1.last];
    assert s1.offenders + Positions(flags[..m], s1.i) == Positions(flags[..m], 1);
  }

  /** A clean reading first: its sample, then the rest's from its time on. */
  lemma PrependReading(slot0: Sample, c: Reading, rs: seq<Reading>)
    ensures [slot0, Sample(c.delta, c.code)] + Accumulate(c.delta, rs) == [slot0] + Accumulate(0, [c] + rs)
  {
    AccumulateFirst(0, [c] + rs);
    assert ([c] + rs)[1..] == rs;
  }

  /** A clean flag first shifts every position by one. */
  lemma PrependClean(flags: seq<bool>)
    ensures Positions([false] + flags, 0) == Positions(flags, 1)
  {
    assert ([false] + flags)[1..] == flags;
  }

  /** The frame from a valid packet `p`, in terms of the readings and flags of the packets after it. */
  lemma FrameFromRest(ps: seq<Packet>, p: nat, previous: int, mode: Mode, data: Buffer, target: int)
    requires |data| >= 2 && p < |ps| && ps[p].Valid?
    ensures var m := |data| - 2;
      var rest := ps[p + 1..];
      var slot0 := if mode == Off then data[0] else Sample(0, previous);
      FrameFrom(ps, p, previous, mode, data, target)
      == if |rest| < m then Exhausted
         else Frame(slot0, [Contribution(ps[p], target)] + Readings(rest, target)[..m],
                    [false] + CorruptFlags(rest)[..m], |rest| > m)
  {
    var n := |data|;
    var rest := ps[p + 1..];
    if |ps| >= p + n - 1 {
      var recorded := ps[p .. p + n - 1];
      SliceHead(ps, p, n - 2);
      assert recorded == [ps[p]] + rest[..n - 2];
      RecordedReadings(ps[p], rest, n - 2, target);
    }
  }

  /** The recording phase from the packet that starts it, in the declarative terms. */
  lemma RecordingFromStart(ps: seq<Packet>, p: nat, previous: int, mode: Mode, data: Buffer, target: int)
    requires |data| >= 2 && p < |ps| && ps[p].Valid?
    ensures var s1 := Started(Init(mode, data), previous, ps[p], mode);
      && Recording(s1)
      && RecordedOf(s1, Readings(ps[p + 1..], target), CorruptFlags(ps[p + 1..]))
         == FrameFrom(ps, p, previous, mode, data, target)
  {
    var s1 := Started(Init(mode, data), previous, ps[p], mode);
    var rest := ps[p + 1..];
    var rs := Readings(rest, target);
    var flags := CorruptFlags(rest);
    StartedFacts(data, previous, ps[p], mode, target);
    FrameFromRest(ps, p, previous, mode, data, target);
    if |rest| >= |data| - 2 {
      var slot0 := if mode == Off then data[0] else Sample(0, previous);
      RecordedAfterStart(s1, slot0, Contribution(ps[p], target), rs, flags);
    }
  }

  /** The loop computes the declarative fill: same outcome, same buffer, same offender list. */
  lemma FillMatchesReference(ps: seq<Packet>, level: int, mode: Mode, data: Buffer, target: int)
    requires |data| >= 2
    ensures Project(Fill(Init(mode, data), ps, level, mode, target))
      == ReferenceFill(ps, level, mode, data, target)
  {
    var seed := InitialLastCode(mode);
    var s := Init(mode, data);
    WaitingRun(s, ps, level, mode, target);
    var start := StartIndex(ps, seed, level, mode);
    if start.Some? {
      var p := start.value;
      var s1 := Started(s, LastValidCode(ps[..p], seed), ps[p], mode);
      assert Fill(s, ps, level, mode, target) == Fill(s1, ps[p + 1..], level, mode, target);
      assert StartsAt(ps, p, seed, level, mode);
      RecordingFromStart(ps, p, LastValidCode(ps[..p], seed), mode, data, target);
      RecordingRun(s1, ps[p + 1..], level, mode, target);
    }
  }
}
