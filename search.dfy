/** The two character-search helpers of the codec. */
module Search {

  /** keyChars: the characters doubled when a key is escaped. */
  const KeyChars: seq<char> := ['=', ';']

  /** valueChars: the characters whose presence sends a value to the escaping path. */
  const ValueChars: seq<char> := [';']

  /**
   * IndexOfAny: the least index of `value` whose character occurs in `chars`,
   * or -1 when there is none.
   */
  method IndexOfAny(value: string, chars: seq<char>) returns (pos: int)
    ensures -1 <= pos < |value|
    ensures pos == -1 <==> forall k :: 0 <= k < |value| ==> value[k] !in chars
    ensures pos >= 0 ==> value[pos] in chars && forall k :: 0 <= k < pos ==> value[k] !in chars
  {
    for i := 0 to |value|
      invariant forall k :: 0 <= k < i ==> value[k] !in chars
    {
      var c := value[i];
      for j := 0 to |chars|
        invariant forall m :: 0 <= m < j ==> chars[m] != c
      {
        if chars[j] == c {
          return i;
        }
      }
    }
    return -1;
  }

  /** CharsContain: whether `c` occurs in `chars`. */
  method CharsContain(chars: seq<char>, c: char) returns (found: bool)
    ensures found <==> c in chars
  {
    for i := 0 to |chars|
      invariant c !in chars[..i]
    {
      if chars[i] == c {
        return true;
      }
    }
    return false;
  }
}
