/** The reserved characters shared by the builder and the generator (markov.py:16-18). */
module Symbols {

  /** `START_CHAR`: the character that marks "no word yet" in a context tuple. */
  const StartChar: char := '~'

  /** The start marker as a token of its own. */
  const StartMarker: string := [StartChar]

  /** `PUNCTUATION` (and its alias `END_PUNCTUATION`): the sentence-ending characters. */
  const Punctuation: set<char> := {'.', '?', '!'}

  /** The characters deleted from the training text before it is split. */
  const Stripped: set<char> := {'(', ')', '"', '[', ']', StartChar}

  /** `any(x in w for x in PUNCTUATION)`: the word contains a sentence-ending character somewhere. */
  predicate HasPunct(w: string) {
    exists i :: 0 <= i < |w| && w[i] in Punctuation
  }

  /** `any(w[-1] == x for x in PUNCTUATION)`: the word's last character ends a sentence.
      Python raises on an empty word; every word this is applied to is non-empty. */
  predicate EndsInPunct(w: string) {
    |w| > 0 && w[|w| - 1] in Punctuation
  }
}
