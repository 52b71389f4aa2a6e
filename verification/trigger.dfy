/** Trigger-mode dispatch: the comparison a trigger mode stands for, and the initial trigger state
    the acquisition loop derives from it. */
module Trigger {

  /** Rising edge (`'+'`), falling edge (`'-'`), or no trigger (anything else). */
  datatype Mode = Rising | Falling | Off

  /** The mode a trigger setting string selects. */
  function TrigFunc(trigger: string): (m: Mode)
    ensures m == Rising <==> trigger == "+"
    ensures m == Falling <==> trigger == "-"
    ensures m == Off <==> trigger != "+" && trigger != "-"
  {
    if trigger == "+" then Rising
    else if trigger == "-" then Falling
    else Off
  }

  /** The comparison a mode stands for: strict greater-than, strict less-than, or never true. */
  predicate Compare(m: Mode, x: int, y: int)
  {
    match m
    case Rising => x > y
    case Falling => x < y
    case Off => false
  }

  /** The loop starts recording at once iff the comparison is constant false on (1, 0) and (0, 1). */
  function InitialTriggered(m: Mode): (triggered: bool)
    ensures triggered <==> m == Off
  {
    !(Compare(m, 1, 0) || Compare(m, 0, 1))
  }

  /** The code the first decoded line is compared against: 1023 iff `Compare(m, 1, 0)`. */
  function InitialLastCode(m: Mode): (code: int)
    ensures m == Rising ==> code == 1023
    ensures m != Rising ==> code == -1
  {
    if Compare(m, 1, 0) then 1023 else -1
  }

  /** The trigger condition between the previous valid code and the current one. */
  predicate Fires(m: Mode, level: int, previous: int, current: int)
  {
    Compare(m, level, previous) && Compare(m, current, level)
  }

  /** Each mode's trigger condition is a strict crossing of the level. */
  lemma FiresIsStrictCrossing(m: Mode, level: int, previous: int, current: int)
    ensures m == Rising ==> (Fires(m, level, previous, current) <==> previous < level < current)
    ensures m == Falling ==> (Fires(m, level, previous, current) <==> current < level < previous)
    ensures m == Off ==> !Fires(m, level, previous, current)
  {
  }

  /** With a level inside the 10-bit code range, the very first decoded line never fires. */
  lemma FirstLineCannotFire(m: Mode, level: int, current: int)
    requires 0 <= level <= 1023
    ensures !Fires(m, level, InitialLastCode(m), current)
  {
  }

  /** A rising trigger at level `L` fires on the step from `L - 1` to `L + 1` but not on the steps
      from `L - 1` to `L` or from `L` to `L + 1`. */
  lemma RisingExample(level: int)
    ensures Fires(Rising, level, level - 1, level + 1)
    ensures !Fires(Rising, level, level - 1, level)
    ensures !Fires(Rising, level, level, level + 1)
  {
  }
}
