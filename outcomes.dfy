/** Optional values and the failures the sequence logic signals.

    The source reports every failure by raising (ValueError from the
    translator, KeyError from the complement lookup); here a failure is an
    `Err` carrying which check refused the input and, where the source's
    message names one, the offending value (the whole-sequence alphabet
    check names none). */
module Outcomes {

  /** Python's `None` / value, as returned by `dict.get`. */
  datatype Option<T> = None | Some(value: T)

  datatype Error =
    | InvalidNucleotide(c: char)          // complement lookup: key not in the table
    | InvalidSequence                     // translation: alphabet check failed
    | InvalidCodon(codon: string)         // translation: codon not in the table
    | InvalidChange(pos: int, base: string)      // substitution out of range or bad base
    | NegativePosition(pos: int)          // deletion / insertion: smallest position < 0
    | OutOfBounds(pos: int)               // deletion: a later position outside the sequence
    | InvalidAddition(pos: int, base: string)    // insertion: later position out of range or bad base

  datatype Result<T> = Ok(value: T) | Err(error: Error)
}
