/** Decoding of one line read from the serial link.

    A line is a byte string `CCCC DDD\n`: a four-digit voltage code, one separator byte, a
    decimal delay in microseconds since the previous sample, and a terminator. The code field is
    the bytes before index 4 and the delay field the bytes from index 5 up to, but excluding, the
    last byte; the separator and the terminator are never looked at. Each field must be a
    non-empty run of ASCII digits. */
module PacketDecoder {
  import opened Wrappers

  newtype byte = x: int | 0 <= x < 256

  /** One line as returned by the link, terminator included. */
  type Line = seq<byte>

  const ZERO: byte := 48
  const SPACE: byte := 32
  const NEWLINE: byte := 10

  predicate IsDigit(b: byte)
  {
    ZERO <= b <= ZERO + 9
  }

  predicate AllDigits(s: seq<byte>)
  {
    forall k :: 0 <= k < |s| ==> IsDigit(s[k])
  }

  function Pow10(n: nat): (r: nat)
    ensures r >= 1
  {
    if n == 0 then 1 else 10 * Pow10(n - 1)
  }

  /** The decimal value of a run of ASCII digits, most significant digit first. */
  function DigitsValue(s: seq<byte>): (v: nat)
    requires AllDigits(s)
    ensures v < Pow10(|s|)
  {
    if |s| == 0 then 0 else 10 * DigitsValue(s[..|s| - 1]) + (s[|s| - 1] - ZERO) as nat
  }

  /** Integer parsing of one field: `None` stands for the parse failure. */
  function ParseField(s: seq<byte>): Option<nat>
  {
    if |s| > 0 && AllDigits(s) then Some(DigitsValue(s)) else None
  }

  /** The bytes before index 4 (all of them for a shorter line). */
  function CodeField(line: Line): seq<byte>
  {
    if |line| <= 4 then line else line[..4]
  }

  /** The bytes from index 5 up to the last byte, excluded; empty for lines of six bytes or fewer. */
  function DelayField(line: Line): seq<byte>
  {
    if |line| <= 6 then [] else line[5..|line| - 1]
  }

  /** A decoded line: a code and a delay that passed the timing check, or a corrupted line. */
  datatype Packet = Valid(code: nat, delta: nat) | Corrupted

  /** The strict timing window `0.8 * target < delta < 1.2 * target`, scaled by five. */
  predicate InWindow(delta: int, target: int)
  {
    4 * target < 5 * delta < 6 * target
  }

  /** Decodes one line against the target sample interval `target`. */
  function Decode(line: Line, target: int): (p: Packet)
    ensures p.Valid? ==> InWindow(p.delta, target) && p.code < 10000
  {
    match (ParseField(CodeField(line)), ParseField(DelayField(line)))
    case (Some(code), Some(delta)) =>
      if InWindow(delta, target) then Valid(code, delta) else Corrupted
    case _ => Corrupted
  }

  /** Every valid packet of `ps` has its delay in the window around `target`. */
  predicate AllInWindow(ps: seq<Packet>, target: int)
  {
    forall k :: 0 <= k < |ps| && ps[k].Valid? ==> InWindow(ps[k].delta, target)
  }

  /** Every line of a sequence, decoded against the same target interval. */
  function DecodeAll(lines: seq<Line>, target: int): (ps: seq<Packet>)
    ensures |ps| == |lines|
    ensures forall k {:trigger Decode(lines[k], target)} :: 0 <= k < |lines| ==> ps[k] == Decode(lines[k], target)
    ensures AllInWindow(ps, target)
  {
    seq(|lines|, k requires 0 <= k < |lines| => Decode(lines[k], target))
  }

  /** A line is valid exactly when it has a four-digit code, a non-empty all-digit delay before
      its last byte, and that delay in the window; the packet then carries those two numbers. */
  lemma DecodeCharacterization(line: Line, target: int)
    ensures Decode(line, target).Valid? <==>
      && |line| >= 7
      && AllDigits(line[..4])
      && AllDigits(line[5..|line| - 1])
      && InWindow(DigitsValue(line[5..|line| - 1]), target)
    ensures Decode(line, target).Valid? ==>
      && Decode(line, target).code == DigitsValue(line[..4])
      && Decode(line, target).delta == DigitsValue(line[5..|line| - 1])
  {
  }

  /** `n` as exactly `width` zero-padded decimal digits (the low digits when `n` is wider). */
  function PadDigits(n: nat, width: nat): (s: seq<byte>)
    ensures |s| == width && AllDigits(s)
  {
    if width == 0 then [] else PadDigits(n / 10, width - 1) + [ZERO + (n % 10) as byte]
  }

  /** The wire form of a packet: four code digits, a space, three delay digits, a newline. */
  function Encode(code: nat, delta: nat): Line
  {
    PadDigits(code, 4) + [SPACE] + PadDigits(delta, 3) + [NEWLINE]
  }

  /** Zero padding is read back as the number it pads. */
  lemma {:induction false} PadDigitsValue(n: nat, width: nat)
    requires n < Pow10(width)
    ensures DigitsValue(PadDigits(n, width)) == n
  {
    if width > 0 {
      var s := PadDigits(n, width);
      assert s[..width - 1] == PadDigits(n / 10, width - 1);
      PadDigitsValue(n / 10, width - 1);
    }
  }

  /** Round trip: an encoded packet decodes to itself exactly when its delay is in the window. */
  lemma DecodeEncode(code: nat, delta: nat, target: int)
    requires code < 10000 && delta < 1000
    ensures Decode(Encode(code, delta), target) ==
      if InWindow(delta, target) then Valid(code, delta) else Corrupted
  {
    var line := Encode(code, delta);
    assert line[..4] == PadDigits(code, 4);
    assert line[5..|line| - 1] == PadDigits(delta, 3);
    PadDigitsValue(code, 4);
    PadDigitsValue(delta, 3);
    DecodeCharacterization(line, target);
  }

  /** The separator (byte 4) and the terminator (the last byte) never affect decoding. */
  lemma DecodeIgnoresSeparatorAndTerminator(line: Line, other: Line, target: int)
    requires |line| == |other|
    requires forall k :: 0 <= k < |line| && k != 4 && k != |line| - 1 ==> line[k] == other[k]
    ensures Decode(line, target) == Decode(other, target)
  {
    if |line| >= 7 {
      assert line[..4] == other[..4];
      assert line[5..|line| - 1] == other[5..|other| - 1];
    }
    DecodeCharacterization(line, target);
    DecodeCharacterization(other, target);
  }

  /** A line shorter than seven bytes has no delay field and is always corrupted. */
  lemma ShortLineCorrupted(line: Line, target: int)
    requires |line| < 7
    ensures Decode(line, target) == Corrupted
  {
  }

  /** Against a target of 100 us, `0050 101` is the valid pair (50, 101), and `0050 200` is
      corrupted because 200 lies above the window. */
  lemma WindowExamples()
    ensures Decode(Encode(50, 101), 100) == Valid(50, 101)
    ensures Decode(Encode(50, 200), 100) == Corrupted
    ensures Decode(Encode(50, 80), 100) == Corrupted
    ensures Decode(Encode(50, 120), 100) == Corrupted
  {
    DecodeEncode(50, 101, 100);
    DecodeEncode(50, 200, 100);
    DecodeEncode(50, 80, 100);
    DecodeEncode(50, 120, 100);
  }
}
