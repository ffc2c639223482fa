/**
 * The parts of java.lang that the codec leans on: characters, String.substring
 * and StringBuilder. A Java `char` is an opaque symbol here (no UTF-16 concerns).
 */
module JavaText {
  import opened Wrappers

  /** The Java exceptions the codec can raise. */
  datatype Error =
    | IllegalArgument          // java.lang.IllegalArgumentException
    | StringIndexOutOfBounds   // java.lang.StringIndexOutOfBoundsException

  /** Character.MIN_VALUE, the parser's end-of-input sentinel. */
  const Nul: char := '\0'

  /**
   * String.substring(begin, end): the characters at [begin, end), or an
   * exception unless 0 <= begin <= end <= length.
   */
  function Substring(s: string, begin: int, end: int): (r: Result<string, Error>)
    ensures r.Success? <==> 0 <= begin <= end <= |s|
    ensures r.Failure? ==> r.error == StringIndexOutOfBounds
  {
    if 0 <= begin <= end <= |s| then Success(s[begin..end]) else Failure(StringIndexOutOfBounds)
  }

  /** A java.lang.StringBuilder: a growable text that callers append to. */
  class StringBuilder {
    var text: string

    constructor ()
      ensures text == []
    {
      text := [];
    }

    /** StringBuilder.append: the new text is the old text followed by `s`. */
    method Append(s: string)
      modifies this
      ensures text == old(text) + s
    {
      text := text + s;
    }
  }
}
