/** What a decoder call ends in: the SMILES text, a `DecodeError` whose
    offset lies in the input or at most one past its end, or a Python
    exception of another kind that the source lets escape (`IndexError`,
    `ValueError`). */
module DecodeErrors {

  /** The input, the offset the caret is drawn under, and the message. */
  datatype DecodeError = DecodeError(input: string, idx: int, message: string)

  datatype Outcome<+T> =
    | Ok(value: T)
    | Fail(error: DecodeError)
    | Crash

  const TooManyClose := "Too many close parentheses - there is no corresponding atom to pop off the stack"
  const PercentFirst := "'%' not allowed as first character"
  const DigitFirst := "digit not allowed as first character"
  const UnclosedPercent := "'%(' is missing the corresponding close parenthesis"
  const PercentDigitsBranches := "'%' should be followed by at least two digits"
  const PercentDigitsRings := "'%' should be followed by two digits"
  const UnclosedBracket := "There is a '[' without the corresponding ']'"
  const RingBeforeAtom := "Ring closure symbol must be preceded by an atom"
  const NoRingPartner := "There is no corresponding atom on which to place the ring opening symbol for the ring sized "
}
