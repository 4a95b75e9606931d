/** Bytes, byte strings, and the relations on byte strings that the modules share. */
module Bytes {

  /** A pointer or a value that may be missing. */
  datatype Option<T> = None | Some(value: T)

  /** An `unsigned char`. */
  type Byte = b: int | 0 <= b < 256

  type Word = seq<Byte>

  const CR: Byte := 13
  const LF: Byte := 10

  /** `isspace` in the C locale. */
  predicate Space(b: Byte) {
    b == 32 || 9 <= b <= 13
  }

  function Init(w: Word): Word
    requires w != []
  {
    w[..|w| - 1]
  }

  function Last(w: Word): Byte
    requires w != []
  {
    w[|w| - 1]
  }

  predicate IsSuffix(x: Word, w: Word) {
    |x| <= |w| && w[|w| - |x|..] == x
  }

  /** The suffixes of `w` other than `w` are the suffixes of its tail. */
  lemma TailSuffix(x: Word, w: Word)
    requires |x| < |w|
    ensures IsSuffix(x, w) <==> IsSuffix(x, w[1..])
  {
    assert w[|w| - |x|..] == w[1..][|w| - 1 - |x|..];
  }
}
