/** The magnitude suffix of format_num in SigmaSight.py, the axis tick formatter of the
    charts: the first threshold the value reaches picks T, B, M or K and the factor the value
    is scaled by before it is printed. */
module NumberFormat {

  datatype Suffix = Trillions | Billions | Millions | Thousands | NoSuffix

  const Trillion: real := 1.0e12
  const Billion: real := 1.0e9
  const Million: real := 1.0e6
  const Thousand: real := 1.0e3

  /** The letter printed after the scaled value. */
  function Letter(s: Suffix): string {
    match s
    case Trillions => "T"
    case Billions => "B"
    case Millions => "M"
    case Thousands => "K"
    case NoSuffix => ""
  }

  /** What the value is divided by before printing. */
  function Scale(s: Suffix): (r: real)
    ensures r >= 1.0
  {
    match s
    case Trillions => Trillion
    case Billions => Billion
    case Millions => Million
    case Thousands => Thousand
    case NoSuffix => 1.0
  }

  /** Suffixes ordered by magnitude. */
  function Magnitude(s: Suffix): nat {
    match s
    case NoSuffix => 0
    case Thousands => 1
    case Millions => 2
    case Billions => 3
    case Trillions => 4
  }

  /** The branch format_num takes for `value`: exactly one, by first match. */
  function SuffixFor(value: real): (s: Suffix)
    ensures s == Trillions <==> value >= Trillion
    ensures s == Billions <==> Billion <= value < Trillion
    ensures s == Millions <==> Million <= value < Billion
    ensures s == Thousands <==> Thousand <= value < Million
    ensures s == NoSuffix <==> value < Thousand
  {
    if value >= Trillion then Trillions
    else if value >= Billion then Billions
    else if value >= Million then Millions
    else if value >= Thousand then Thousands
    else NoSuffix
  }

  /** The number format_num prints in front of the letter, before rounding to no decimals:
      at least 1 whenever a suffix is chosen, and below 1000 except for trillions. */
  function ScaledValue(value: real): (r: real)
    ensures SuffixFor(value) != NoSuffix ==> r >= 1.0
    ensures SuffixFor(value) != NoSuffix && SuffixFor(value) != Trillions ==> r < 1000.0
    ensures SuffixFor(value) == NoSuffix ==> r == value
    ensures r * Scale(SuffixFor(value)) == value
  {
    value / Scale(SuffixFor(value))
  }

  /** A larger value never gets a smaller suffix. */
  lemma SuffixMonotone(x: real, y: real)
    requires x <= y
    ensures Magnitude(SuffixFor(x)) <= Magnitude(SuffixFor(y))
  {
  }

  /** Every negative value, however large its magnitude, is printed without a suffix. */
  lemma NegativeHasNoSuffix(value: real)
    requires value < 0.0
    ensures SuffixFor(value) == NoSuffix && ScaledValue(value) == value
  {
  }
}
