/** Strings as C keeps them: a NUL stands behind the last character. */
module CStrings {

  const NUL: char := '\0'

  /** The character at a position of a C string, the NUL at its end included. */
  function At(s: string, pos: nat): char {
    if pos < |s| then s[pos] else NUL
  }
}
