# Oscilloscope acquisition core, in Dafny

A model of the acquisition core of `scope_base.py`, the host side of a serial-link oscilloscope.
The microcontroller streams one line per sample: a four-digit 10-bit voltage code, a separator, the
delay in microseconds since the previous sample, and a newline. The host does three things.

- It picks a sample interval for the timebase and resolution (`chooserate`).
- It sizes a frame buffer of `N` (time, code) samples from that interval.
- It fills one frame per call of `mainloop`. That loop:
  - decodes each line and checks its delay against the interval;
  - waits for a level-crossing trigger (rising, falling or off);
  - writes running times and codes into the buffer, with a placeholder for each corrupted line;
  - stops once the preset sentinel code in the last slot is overwritten;
  - repairs the codes next to the corrupted lines by averaging neighbours.

Modules, in dependency order:

- `Wrappers`: `Option` and the three-way `Outcome` of a fill. The outcomes are `Complete`,
  `Exhausted` (the given lines ran out before the frame was full) and `IndexError` (a write past
  the last slot).
- `RateSelector`: `chooserate` and the frame length `N`.
- `PacketDecoder`: one line to a `Valid(code, delta)` or `Corrupted` packet, and the wire format
  with its round trip.
- `Trigger`: `trigfunc` as a `Rising | Falling | Off` mode, the loop's initial trigger state and
  reference code, and the firing condition.
- `Acquisition`: the loop as written. One iteration is `Step`, the loop is `Fill`, the repair is
  `Repair`, and one cycle is `Acquire`.
- `AcquisitionReference`: a declarative description of what one fill produces, and the proof
  that `Fill` computes it for every input (`FillMatchesReference`).
- `FrameProperties`: what a complete frame looks like, read off that description: recorded
  slots, increasing times, placeholders and offenders, and the averages the repair leaves.
- `RepairFinding`: the repair as written against the evidently intended one (see Findings).
- `Capture`: the first frame as the main program sets it up and acquires it, repair as written.

Modelling choices:

- **Input.** The serial link is a finite sequence of lines. A read that times out returns an
  empty line, which is simply one more corrupted line.
- **Decoding up front.** Decoding a line depends only on the line and the interval. So the loop
  runs on `DecodeAll(lines, target)`, and iteration `k` acts on packet `k`. `Acquire` takes the
  raw lines and decodes them first.
- **Timebase units.** The timebase is an integer count of hundredths of a millisecond. So
  `10000*tbase//points` is `100 * t / points`, and Dafny's `/` on a positive divisor floors like
  Python's `//`.
- **The window test.** `0.8*target < delta < 1.2*target` is decided exactly, as
  `4*target < 5*delta < 6*target`.
- **Integer halving.** The repair stores `(a + b)/2` into an integer array, which truncates
  toward zero. That is `Half`.
- **Index errors.** A frame whose last slot receives code 1025 keeps looping and writes one slot
  past the end. This is the `IndexError` outcome, not a precondition, so every input has a defined
  result.

Details of the code the model keeps:

- **Strict comparisons.** The timing window and both trigger comparisons are strict.
- **Slot 0 at the trigger.** When the trigger fires, slot 0 gets time 0 and the *previous* valid
  code, and slot 1 gets the triggering line.
- **Off mode.** Without a trigger the loop records from the first valid line into slot 1, and
  never writes slot 0.
- **Offender index.** The index recorded for a corrupted line is the slot written just *before*
  its placeholder. The repair therefore rewrites a valid sample (see Findings).

## Model

| member | source | states |
|---|---|---|
| RateSelector.ChooseRate | scope_base.py:153-158 | The interval is never below 8 us. Above 8 it is exactly the floor of 10^4·timebase over the resolution's point count (500, 1000 or 2000). 8 is returned only when that floor does not exceed 8. |
| RateSelector.ChooseRateNonIncreasing | scope_base.py:153-158 | More points per frame (normal, higher, highest) never give a longer interval. |
| RateSelector.ChooseRateMonotone | scope_base.py:155-158 | A longer timebase never gives a shorter interval. |
| RateSelector.BufferLength | scope_base.py:353 | N is the floor quotient of 10^4·timebase by the interval: N·interval <= 10^4·timebase < (N+1)·interval. |
| RateSelector.BufferLengthBounds | scope_base.py:353 | For every positive timebase a frame holds at least 12 samples and fewer than 9/8 of the resolution's points. When the interval is above its floor it holds at least that many points. |
| RateSelector.DefaultConfiguration | scope_base.py:343-353 | The main program's 5 ms timebase at the highest resolution samples every 25 us into 2000 slots. |
| PacketDecoder.Decode | scope_base.py:274-278 | A valid packet's delay lies strictly between 0.8 and 1.2 times the target, and its code has at most four digits. |
| PacketDecoder.DecodeCharacterization | scope_base.py:275-278 | A line is valid iff all of these hold: it has at least 7 bytes; bytes 0-3 are digits; bytes 5 up to the second-to-last form a non-empty digit run; that number is strictly inside the window. A valid packet carries exactly those two numbers. |
| PacketDecoder.DecodeAll | scope_base.py:271-278 | The loop decodes every line on its own: packet k is line k decoded against the target, and every valid packet's delay is in the window. |
| PacketDecoder.DecodeEncode | scope_base.py:275-278 | Round trip: a code below 10^4 and a delay below 10^3, written as `cccc ddd` plus a newline, decode back to the same pair exactly when the delay is in the window. Otherwise the line is corrupted. |
| PacketDecoder.DecodeIgnoresSeparatorAndTerminator | scope_base.py:275 | Byte 4 and the last byte of a line never affect its decoding. |
| PacketDecoder.ShortLineCorrupted | scope_base.py:275 | A line shorter than 7 bytes is corrupted. This includes the empty line of a timed-out read. |
| PacketDecoder.WindowExamples | scope_base.py:276-278 | Against a 100 us target, `0050 101` decodes to (50, 101). Delays 200, 80 and 120 are rejected; the last two only because the window is strict. |
| Trigger.TrigFunc | scope_base.py:228-238 | `+` selects the rising edge, `-` the falling edge, and every other setting turns the trigger off. |
| Trigger.FiresIsStrictCrossing | scope_base.py:288 | Rising fires iff previous < level < current. Falling fires iff current < level < previous. Off never fires. |
| Trigger.InitialTriggered | scope_base.py:266 | The loop starts out recording iff the trigger is off. |
| Trigger.InitialLastCode | scope_base.py:267 | The reference code starts at 1023 for the rising edge and at -1 otherwise. |
| Trigger.FirstLineCannotFire | scope_base.py:266-267 | For a level in 0..1023, the first packet can never fire against the seeded reference code. |
| Trigger.RisingExample | scope_base.py:288 | On the rising edge, level-1 followed by level+1 fires. Reaching the level exactly, or starting from it, does not. |
| Acquisition.Init | scope_base.py:266-270 | The loop starts with: recording iff the trigger is off; write index 0; no offenders; running time 0; the last slot's code set to 1025. Every other slot is kept. |
| Acquisition.Write | scope_base.py:295-296 | Storing the next sample succeeds iff the write index is inside the buffer, and keeps the index and the length. |
| Acquisition.Step | scope_base.py:273-296 | One iteration keeps the buffer length and the loop invariant. The invariant: the index is in range; the sentinel stays until the index reaches the last slot; offenders are increasing and lie in 1..i-1. An index error happens only when writing past the last slot. |
| Acquisition.Fill | scope_base.py:271-296 | A complete fill keeps the length, is triggered, ends with the write index on the last slot, and that slot's code is no longer 1025. |
| Acquisition.Half | scope_base.py:299 | Halving truncates toward zero. For x >= 0, 0 <= x - 2h <= 1; for x < 0, -1 <= x - 2h <= 0. |
| Acquisition.Repair | scope_base.py:298-299 | The repair keeps the length and every time, and never changes the last slot. |
| Acquisition.RepairKeepsOthers | scope_base.py:298-299 | The repair changes offender slots only. |
| Acquisition.InitialData | scope_base.py:357 | The first buffer holds N samples, slot k being (k·interval, 0). |
| Acquisition.Acquire | scope_base.py:266-299 | A complete cycle returns a buffer of the input's length whose last code is not the sentinel. |
| Acquisition.StepDropsEarlyCorruption | scope_base.py:279-282 | While the write index is 0, a corrupted line changes nothing. |
| Acquisition.StepBeforeTrigger | scope_base.py:287-296 | Before the trigger, a valid line that does not fire only rewrites slot 0. Slot 0 gets the running time plus its delay, with its code, which becomes the reference code. |
| Acquisition.StepFires | scope_base.py:287-296 | A valid line that fires sets slot 0 to (0, previous code) and slot 1 to (its delay, its code). Recording goes on at index 1 and no other slot changes. |
| Acquisition.StepWhileRecording | scope_base.py:283-296 | While recording, each line writes the next slot. A valid line writes (time + delay, code); a corrupted one writes (time + target, 0) and records the previous index as an offender. |
| AcquisitionReference.StartIndex | scope_base.py:279-292 | The start index, if any, is a valid packet that fires against the last valid code before it (in Off mode, any valid packet). No earlier packet does. Without a start index, no packet does. |
| AcquisitionReference.WaitingRun | scope_base.py:279-292 | From a waiting state, the loop ends exactly as it would resuming right after the first packet that starts recording. It is exhausted when no packet does. |
| AcquisitionReference.RecordingRun | scope_base.py:283-296 | From a recording state, the next packets fill the remaining slots with running times and codes. Corrupted packets are listed at the slot before their placeholder. The result is complete, or exhausted or an index error when the sentinel survives. |
| AcquisitionReference.FillMatchesReference | scope_base.py:266-296 | For every input, the loop yields the declarative fill: the same outcome, buffer and offender list. |
| FrameProperties.StartPacketValid | scope_base.py:279-289 | The packet at which recording starts is valid. |
| FrameProperties.CompleteStarts | scope_base.py:271-292 | A complete fill had a packet that started the recording. |
| FrameProperties.ReferenceComplete | scope_base.py:287-296 | A complete declarative fill from start index p was recorded from packets p..p+N-2. Slot 0 is (0, previous valid code) with a trigger, or the caller's slot 0 without. The running samples follow. The offenders are the corrupted positions. |
| FrameProperties.CompleteFrame | scope_base.py:287-296 | The same, for a complete fill of the loop. |
| FrameProperties.ContributionAdvances | scope_base.py:276-286 | With a positive target, every recorded packet advances the clock: a valid delay is in the window, and a corrupted line counts as the target. |
| FrameProperties.RecordedSlots | scope_base.py:293-296 | Slot k+1 holds recorded packet k's code, 0 if corrupted. Its time is slot k's time plus the packet's delay (the target if corrupted). Slot 1's time is the first delay. |
| FrameProperties.RecordedTimesIncrease | scope_base.py:293-296 | With a positive target, the times of a recorded frame strictly increase from slot 1 on, and slot 1 lies after time 0. |
| FrameProperties.CompleteTimesIncrease | scope_base.py:276-296 | In a complete fill with a positive target, times strictly increase from slot 1 on. With a trigger, slot 0 is at time 0, before slot 1. |
| FrameProperties.PositionsExact | scope_base.py:284-285 | A position is listed iff its flag is set. |
| FrameProperties.RecordedPlaceholders | scope_base.py:284-286 | Every offender k lies in 1..N-2, and slot k+1 is its placeholder: slot k's time plus the target, with code 0. |
| FrameProperties.RecordedOffenders | scope_base.py:279-285 | A slot k >= 1 is an offender iff recorded packet k, the one written into slot k+1, is corrupted. |
| FrameProperties.CompletePlaceholders | scope_base.py:279-296 | In a complete fill, offenders are exactly the slots just before a placeholder, and mark exactly the corrupted recorded packets. |
| FrameProperties.RepairAveragedAt | scope_base.py:298-299 | With offenders as the loop records them, offender a's slot ends with the truncated mean of the final code before it and the code after it as the fill left it. |
| FrameProperties.RepairAverages | scope_base.py:298-299 | The same, for every offender. |
| RepairFinding.RepairPlaceholders | scope_base.py:298-299 | Intended repair: only placeholder slots (those right after an offender) change, and no time changes. |
| RepairFinding.RepairPlaceholdersFill | scope_base.py:298-299 | Intended repair: every placeholder ends with the truncated mean of its final left neighbour and its right neighbour as the fill left it. The last slot copies its left neighbour. |
| RepairFinding.IntendedRepairKeepsValidSamples | scope_base.py:284-299 | In a complete fill, the intended repair keeps slot 0 and the sample of every valid recorded packet, and fills every placeholder. |
| RepairFinding.IntendedRepairKeepsValidCodes | scope_base.py:284-299 | In a complete fill, the intended repair leaves slot k+1 with the code of recorded packet k whenever that packet is valid. |
| RepairFinding.AcquireIntendedKeepsValidCodes | scope_base.py:271-299 | Over the raw lines: a complete cycle with the intended repair gives slot k+1 the decoded code of every valid line recorded into it, and fills every placeholder from its neighbours. |
| RepairFinding.RepairLeavesPlaceholders | scope_base.py:298-299 | As written: a placeholder whose own slot is not an offender still has code 0 after the repair. |
| RepairFinding.ExampleDecodes | scope_base.py:275-278 | The example lines decode to three (500, 25) samples around one corrupted empty line. |
| RepairFinding.ExampleFill | scope_base.py:266-296 | On that example (5 slots, no trigger, 25 us), the loop completes with offender list [2] and slot 3 the (75, 0) placeholder. |
| RepairFinding.ExampleRepairAsWritten | scope_base.py:298-299 | The repair as written turns slot 2 from 500 into 250 and leaves slot 3 at 0. |
| RepairFinding.ExampleRepairIntended | scope_base.py:298-299 | The intended repair keeps slot 2 at 500 and sets slot 3 to 500. |
| RepairFinding.RepairCounterexample | scope_base.py:266-299 | The whole example cycle, both ways: as written it ends with codes 0, 500, 250, 0, 500; intended, with 0, 500, 500, 500, 500. |
| Capture.CaptureFrame | scope_base.py:349-365 | The first frame, filled and repaired as written on the buffer of line 357: when complete it has exactly N samples for the chosen interval, and at least 12. |
| Capture.UntriggeredSlotZero | scope_base.py:266-299 | Without a trigger, slot 0 of a complete first frame keeps the initial sample (0, 0). |
| Capture.UntriggeredFillKeepsSlotZero | scope_base.py:287-296 | In Off mode, the loop never changes slot 0. |
| Capture.CaptureTimesIncrease | scope_base.py:276-299 | In a complete frame, times strictly increase from slot 1 on. With a trigger, slot 0 is at time 0, before slot 1. |

## Left out

- Spectrum analysis (`spectrum`): floating-point windowing, FFT and logarithms through library calls.
- Plotting and number formatting (`secformat`, `drawplot`, `timeaxis`, `freqaxis`, `updategraph`): presentation only.
- Serial session handling (`startcomms`, `readandprint`, `fileprint`, `finishup`): device side effects, timeouts and sleeps.
- The drain after each frame (`flushInput` and two `readline` calls, scope_base.py:300-302): it discards input between frames, so the model's input sequence is the lines one frame reads.
- The main program's endless frame loop and its fixed level of 256: `CaptureFrame` models the first frame, on the buffer of line 357, for any level. `Acquire` models one frame on any incoming buffer, so a later frame is `Acquire` applied to the previous frame's result; chaining the frames is left to the caller.
- Acquisition.Init: requires a buffer of at least two slots. On the main program's path N is at least 12 (`BufferLengthBounds`); the source's behaviour for N = 0 (an index error at line 268) and N = 1 is not modelled.
- PacketDecoder.Decode: Python's `int()` also accepts surrounding whitespace, a sign and underscores. The model accepts only a non-empty run of ASCII digits in each field.
- PacketDecoder.Decode: the window bounds `0.8*target` and `1.2*target` are floating point in the source. The model compares against the exact bounds, and binary rounding of them is not modelled.
- RateSelector.ChooseRate: the timebase is a float in milliseconds in the source. The model takes integer hundredths of a millisecond, which covers every standard timebase (0.04 ms to 500 ms).
- The buffer is a numpy int64 array: overflow of the running time is not modelled, as integers are unbounded.
- The `print` of each corrupted line: console output only.

## Findings

| source | as written | input that shows it | evidently intended | confidence | as-written member | corrected member |
|---|---|---|---|---|---|---|
| scope_base.py:284-299 | For a corrupted line the loop records index i, the slot written just before the placeholder, which goes into slot i+1. The repair then overwrites slot i's code with the mean of slots i-1 and i+1. That halves a valid sample toward the placeholder's 0, and leaves the placeholder at code 0. | 5 slots, no trigger, 25 us target; lines `0500 025`, `0500 025`, an empty (timed-out) line, `0500 025`. Slot 2 goes from 500 to 250 and slot 3 stays 0. | Rewrite the placeholder, slot i+1, from slots i and i+2, and keep every valid sample. | not executed | RepairFinding.RepairCounterexample | RepairFinding.IntendedRepairKeepsValidSamples |
