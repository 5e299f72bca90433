/** The frame spinbox of frame_spinbox.py: its range and initial value, and
    the colour it shows for a value given the values of the spinboxes
    linked before and after it. Colours are a status, not a stylesheet. */
module FrameSpinbox {
  import opened Wrappers

  const MinFrame: int := 0
  const MaxFrame: int := 10000
  const InitialFrame: int := 1001

  /** What a spinbox holds after `setValue(v)`: Qt keeps the value inside
      the spinbox range, so values outside it land on the nearest end. */
  function SetValue(v: int): (r: int)
    ensures MinFrame <= r <= MaxFrame
    ensures MinFrame <= v <= MaxFrame ==> r == v
    ensures v < MinFrame ==> r == MinFrame
    ensures v > MaxFrame ==> r == MaxFrame
  {
    if v < MinFrame then MinFrame else if v > MaxFrame then MaxFrame else v
  }

  /** Clamping keeps the order of two values. */
  lemma SetValueMonotonic(a: int, b: int)
    requires a <= b
    ensures SetValue(a) <= SetValue(b)
  {
  }

  /** The three background colours a linked spinbox can be given. */
  datatype Status = Red | Green | Orange

  /** `update_colour`: the status the spinbox takes, or `None` when it keeps
      whatever colour it had. `prev` and `next` are the values of the linked
      neighbours, when there are any. */
  function UpdateColour(value: int, isInFrame: bool, prev: Option<int>, next: Option<int>): (s: Option<Status>)
    // in-frame: Red exactly when it lies past the next value
    ensures isInFrame ==> (s == Some(Red) <==> next.Some? && value > next.value)
    // in-frame within order: Green when it follows its predecessor directly
    ensures isInFrame && next.Some? && value <= next.value ==>
              s.Some? && s.value != Red &&
              (s == Some(Green) <==> prev.None? || value == prev.value + 1)
    // in-frame without a successor: left as it is
    ensures isInFrame && next.None? ==> s.None?
    // out-frame: Red when it reaches the next value, before prev is looked at
    ensures !isInFrame && next.Some? && value >= next.value ==> s == Some(Red)
    // out-frame within order: Green when it directly precedes its successor
    ensures !isInFrame && !(next.Some? && value >= next.value) && prev.Some? && value >= prev.value ==>
              s.Some? && s.value != Red &&
              (s == Some(Green) <==> next.None? || value == next.value - 1)
    // out-frame otherwise: Red exactly when it lies before its predecessor
    ensures !isInFrame && !(next.Some? && value >= next.value) ==>
              (s == Some(Red) <==> prev.Some? && value < prev.value)
    ensures !isInFrame && prev.None? && !(next.Some? && value >= next.value) ==> s.None?
  {
    if isInFrame then
      var greenPotential := if prev.Some? then value == prev.value + 1 else true;
      if next.Some? then
        if value <= next.value then Some(if greenPotential then Green else Orange)
        else Some(Red)
      else None
    else
      var greenPotential := if next.Some? then value == next.value - 1 else true;
      if next.Some? && value >= next.value then Some(Red)
      else if prev.Some? then
        if value >= prev.value then Some(if greenPotential then Green else Orange)
        else Some(Red)
      else None
  }

  /** An in-frame equal to the next value is accepted while an out-frame
      equal to the next value is not: in/out of one camera may coincide,
      out/in of consecutive cameras may not. */
  lemma EqualNeighbourAsymmetry(v: int)
    ensures UpdateColour(v, true, None, Some(v)) == Some(Green)
    ensures UpdateColour(v, false, None, Some(v)) == Some(Red)
  {
  }
}
