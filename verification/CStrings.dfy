/** C strings: their text without the terminating NUL. */
module CStrings {
  const NUL := '\0'

  /** The character at i, NUL at the end. */
  function At(s: string, i: nat): char {
    if i < |s| then s[i] else NUL
  }
}
