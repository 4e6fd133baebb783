/** The texts of the errors the hazard operations raise. */
module ErrorMessages {
  import opened Hazards

  /** How the messages of check name each size. */
  function FieldLabel(f: Field): string
  {
    match f
    case Frequency => "frequency"
    case IntensityRows => "intensity row"
    case IntensityCols => "intensity column"
    case FractionRows => "fraction row"
    case FractionCols => "fraction column"
    case EventName => "event_name"
    case Date => "date"
    case Orig => "orig"
  }

  function Digit(d: nat): char
    requires d < 10
  {
    "0123456789"[d]
  }

  /** Decimal rendering of a natural number. */
  function Decimal(n: nat): (s: string)
    ensures |s| > 0
    ensures forall k :: 0 <= k < |s| ==> '0' <= s[k] <= '9'
  {
    if n < 10 then [Digit(n)] else Decimal(n / 10) + [Digit(n % 10)]
  }

  /** The number a string of decimal digits denotes. */
  function DecimalValue(s: string): nat
    requires forall k :: 0 <= k < |s| ==> '0' <= s[k] <= '9'
  {
    if s == [] then 0
    else 10 * DecimalValue(s[..|s| - 1]) + (s[|s| - 1] as int - '0' as int)
  }

  /** The sizes in a message can be read back: the digits Decimal writes
      denote the number. */
  lemma {:induction false} DecimalRoundTrip(n: nat)
    ensures DecimalValue(Decimal(n)) == n
    decreases n
  {
    if n >= 10 {
      var s := Decimal(n);
      DecimalRoundTrip(n / 10);
      assert s[..|s| - 1] == Decimal(n / 10);
    }
  }

  /** The text of the ValueError raised for an error. */
  function Message(e: HazardError): string
  {
    match e
    case DuplicateEventIds => "There are events with the same identifier."
    case SizeMismatch(f, expected, actual) =>
      "Invalid Hazard." + FieldLabel(f) + " size: " + Decimal(expected) + " != " + Decimal(actual) + "."
    case ShapeMismatch => "Intensity and fraction matrices must have the same shape"
    case NoEventWithName(name) => "No event with name: " + name
    case NoEventWithId(id) => "No event with id: " + (if id < 0 then "-" + Decimal(-id) else Decimal(id))
    case DifferentTypes => "The given hazards are of different types."
    case DifferentFrequencyUnits => "The given hazards have different frequency units."
    case DifferentUnits => "The given hazards use different units."
    case DifferentCrs => "The given hazards have different CRS."
    case DateWindowArity(n) =>
      if n < 2 then "not enough values to unpack" else "too many values to unpack"
    case FractionZeroed =>
      "Your selection created a Hazard object where the fraction matrix is zero everywhere"
    case NoNonZeroCentroid => "zero-size array: no centroid with a non-zero value"
  }
}
