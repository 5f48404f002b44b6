/** The characters of the game: what can fall, and what counts as a target. */
module Alphabet {

  /** Every character a new falling element can carry: 26 capital letters,
      10 digits and 10 punctuation marks. */
  const Characters: string := "ABCDEFGHIJKLMNOPQRSTUVWXYZ0123456789!@#$%^&*()"

  /** The target class `/[A-Z]/`, tested on a one-character string. */
  predicate IsUpper(c: char)
  {
    'A' <= c <= 'Z'
  }
}
