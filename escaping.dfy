/**
 * The doubling escape of the serializer: EscapeKey and EscapeValue, each with
 * a fast path (no reserved character, the text is appended as it is) and a
 * slow path (every reserved character is written twice).
 */
module Escaping {
  import opened Wrappers
  import opened JavaText
  import opened Search

  /** `s` with every character that occurs in `reserved` written twice. */
  function Doubled(s: string, reserved: seq<char>): string
  {
    if s == [] then []
    else (if s[0] in reserved then [s[0], s[0]] else [s[0]]) + Doubled(s[1..], reserved)
  }

  /** How many characters of `s` occur in `reserved`. */
  function ReservedCount(s: string, reserved: seq<char>): nat
  {
    if s == [] then 0
    else (if s[0] in reserved then 1 else 0) + ReservedCount(s[1..], reserved)
  }

  /** The text EscapeKey appends for a non-empty key: `=` and `;` doubled. */
  function EscapedKey(key: string): string
  {
    Doubled(key, KeyChars)
  }

  /**
   * The text EscapeValue appends: nothing for null, the value itself when it
   * has no `;`, and otherwise the value with both `;` and `=` doubled (the
   * slow path tests keyChars, not valueChars).
   */
  function EscapedValue(value: Option<string>): string
  {
    match value
    case None => []
    case Some(s) => if ';' !in s then s else Doubled(s, KeyChars)
  }

  lemma {:induction false} DoubledAppend(a: string, b: string, reserved: seq<char>)
    ensures Doubled(a + b, reserved) == Doubled(a, reserved) + Doubled(b, reserved)
  {
    if a == [] {
      assert a + b == b;
    } else {
      assert (a + b)[0] == a[0];
      assert (a + b)[1..] == a[1..] + b;
      DoubledAppend(a[1..], b, reserved);
    }
  }

  /** Escaping one more character of `s` appends that character, twice when it is reserved. */
  lemma DoubledSnoc(prefix: string, s: string, i: nat, reserved: seq<char>)
    requires i < |s|
    ensures prefix + Doubled(s[..i + 1], reserved)
      == prefix + Doubled(s[..i], reserved) + (if s[i] in reserved then [s[i], s[i]] else [s[i]])
  {
    assert s[..i + 1] == s[..i] + [s[i]];
    DoubledAppend(s[..i], [s[i]], reserved);
    assert [s[i]][1..] == [];
  }

  /** The escaped text is one character longer per reserved character. */
  lemma {:induction false} DoubledLength(s: string, reserved: seq<char>)
    ensures |Doubled(s, reserved)| == |s| + ReservedCount(s, reserved)
  {
    if s != [] {
      DoubledLength(s[1..], reserved);
    }
  }

  /** The fast path agrees with the slow path: without a reserved character nothing is doubled. */
  lemma {:induction false} DoubledUnchanged(s: string, reserved: seq<char>)
    requires forall k :: 0 <= k < |s| ==> s[k] !in reserved
    ensures Doubled(s, reserved) == s
  {
    if s != [] {
      assert forall k :: 0 <= k < |s[1..]| ==> s[1..][k] == s[k + 1];
      DoubledUnchanged(s[1..], reserved);
    }
  }

  /** Every character of the input survives escaping. */
  lemma {:induction false} DoubledKeeps(s: string, reserved: seq<char>, c: char)
    requires c in s
    ensures c in Doubled(s, reserved)
  {
    if s[0] != c {
      assert c in s[1..];
      DoubledKeeps(s[1..], reserved, c);
    }
  }

  /** Escaping loses nothing: two texts with the same escaped form are equal. */
  lemma {:induction false} DoubledInjective(a: string, b: string, reserved: seq<char>)
    requires Doubled(a, reserved) == Doubled(b, reserved)
    ensures a == b
  {
    if a != [] && b != [] {
      var da, db := Doubled(a, reserved), Doubled(b, reserved);
      assert da[0] == a[0] && db[0] == b[0];
      var n := if a[0] in reserved then 2 else 1;
      assert da[n..] == Doubled(a[1..], reserved);
      assert db[n..] == Doubled(b[1..], reserved);
      DoubledInjective(a[1..], b[1..], reserved);
      assert a == [a[0]] + a[1..] && b == [b[0]] + b[1..];
    }
  }

  /**
   * EscapeValue loses nothing either: its fast path output has no `;`, its
   * slow path output has one, so the two paths never meet.
   */
  lemma EscapedValueInjective(a: string, b: string)
    requires EscapedValue(Some(a)) == EscapedValue(Some(b))
    ensures a == b
  {
    if ';' in a && ';' in b {
      DoubledInjective(a, b, KeyChars);
    } else if ';' in a {
      DoubledKeeps(a, KeyChars, ';');
    } else if ';' in b {
      DoubledKeeps(b, KeyChars, ';');
    }
  }

  /**
   * A value containing `;` grows by one character per `;` AND per `=`; one
   * without `;` is not changed at all, even if it contains `=`.
   */
  lemma EscapedValueLength(s: string)
    ensures ';' in s ==> |EscapedValue(Some(s))| == |s| + ReservedCount(s, KeyChars)
    ensures ';' !in s ==> EscapedValue(Some(s)) == s
  {
    DoubledLength(s, KeyChars);
  }

  /**
   * EscapeKey(value, sb): throws IllegalArgumentException for an empty (or
   * null) key and appends nothing; otherwise appends the escaped key.
   */
  method EscapeKey(value: string, sb: StringBuilder) returns (outcome: Outcome<Error>)
    modifies sb
    ensures outcome == if value == [] then Fail(IllegalArgument) else Pass
    ensures sb.text == old(sb.text) + (if value == [] then [] else EscapedKey(value))
  {
    if |value| == 0 {
      return Fail(IllegalArgument);
    }
    var pos := IndexOfAny(value, KeyChars);
    if pos < 0 {
      DoubledUnchanged(value, KeyChars);
      sb.Append(value);
      return Pass;
    }
    for i := 0 to |value|
      invariant sb.text == old(sb.text) + Doubled(value[..i], KeyChars)
    {
      var c := value[i];
      var reserved := CharsContain(KeyChars, c);
      ghost var before := sb.text;
      if reserved {
        sb.Append([c]);
      }
      sb.Append([c]);
      assert sb.text == before + (if reserved then [c, c] else [c]);
      DoubledSnoc(old(sb.text), value, i, KeyChars);
    }
    assert value[..|value|] == value;
    return Pass;
  }

  /** EscapeValue(value, sb): appends the escaped value; null appends nothing. */
  method EscapeValue(value: Option<string>, sb: StringBuilder)
    modifies sb
    ensures sb.text == old(sb.text) + EscapedValue(value)
  {
    if value.None? {
      return;
    }
    var s := value.value;
    var pos := IndexOfAny(s, ValueChars);
    if pos < 0 {
      assert ';' !in s;
      sb.Append(s);
      return;
    }
    assert ';' in s;
    for i := 0 to |s|
      invariant sb.text == old(sb.text) + Doubled(s[..i], KeyChars)
    {
      var c := s[i];
      var reserved := CharsContain(KeyChars, c);
      ghost var before := sb.text;
      if reserved {
        sb.Append([c]);
      }
      sb.Append([c]);
      assert sb.text == before + (if reserved then [c, c] else [c]);
      DoubledSnoc(old(sb.text), s, i, KeyChars);
    }
    assert s[..|s|] == s;
  }
}
