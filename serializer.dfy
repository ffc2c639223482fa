/**
 * Serialize: the leading value (the first entry keyed "Value") with no
 * prefix, then `;` key `=` value for every other entry, in list order.
 */
module Serializer {
  import opened Wrappers
  import opened JavaText
  import opened Entries
  import opened Search
  import opened Escaping

  /** The index of the first entry keyed "Value", or -1 when there is none. */
  function FirstValueIndex(vs: seq<Entry>): (k: int)
    ensures -1 <= k < |vs|
    ensures k == -1 <==> forall j :: 0 <= j < |vs| ==> vs[j].key != ValueKey
    ensures k >= 0 ==> vs[k].key == ValueKey && forall j :: 0 <= j < k ==> vs[j].key != ValueKey
  {
    if vs == [] then -1
    else if vs[0].key == ValueKey then 0
    else
      var k := FirstValueIndex(vs[1..]);
      if k == -1 then -1 else k + 1
  }

  /** The entries of `vs` other than the one at index `skip` (all of them when `skip` is -1). */
  function Without(vs: seq<Entry>, skip: int): seq<Entry>
  {
    if 0 <= skip < |vs| then vs[..skip] + vs[skip + 1..] else vs
  }

  /** The text one keyed entry contributes; `=` is written even for a null value. */
  function EntryText(e: Entry): string
  {
    ";" + EscapedKey(e.key) + "=" + EscapedValue(e.value)
  }

  /**
   * The texts of the keyed entries, in order, or IllegalArgumentException
   * when one of them has an empty key (EscapeKey rejects it).
   */
  function Body(es: seq<Entry>): Result<string, Error>
  {
    if es == [] then Success([])
    else
      var last := es[|es| - 1];
      match Body(es[..|es| - 1])
      case Failure(err) => Failure(err)
      case Success(t) => if last.key == [] then Failure(IllegalArgument) else Success(t + EntryText(last))
  }

  /** Whether every entry has a non-empty key. */
  predicate KeysNonEmpty(es: seq<Entry>)
  {
    forall k :: 0 <= k < |es| ==> es[k].key != []
  }

  /** The leading part: the escaped value of the first "Value" entry, if any. */
  function Head(vs: seq<Entry>): string
  {
    var k := FirstValueIndex(vs);
    if k < 0 then [] else EscapedValue(vs[k].value)
  }

  /**
   * What Serialize returns: IllegalArgumentException for a null list or for
   * an empty key among the entries written after the leading value,
   * otherwise the leading part followed by the entry texts.
   */
  function Serialized(values: Option<seq<Entry>>): Result<string, Error>
  {
    match values
    case None => Failure(IllegalArgument)
    case Some(vs) =>
      match Body(Without(vs, FirstValueIndex(vs)))
      case Success(t) => Success(Head(vs) + t)
      case Failure(err) => Failure(err)
  }

  /** The entry texts fail exactly when some entry has an empty key, and only with IllegalArgumentException. */
  lemma {:induction false} BodyFailsIffEmptyKey(es: seq<Entry>)
    ensures Body(es).Failure? <==> !KeysNonEmpty(es)
    ensures Body(es).Failure? ==> Body(es).error == IllegalArgument
  {
    if es != [] {
      var init := es[..|es| - 1];
      BodyFailsIffEmptyKey(init);
      assert forall k :: 0 <= k < |init| ==> init[k] == es[k];
    }
  }

  lemma EntryTextAfter(before: string, e: Entry)
    ensures before + ";" + EscapedKey(e.key) + "=" + EscapedValue(e.value) == before + EntryText(e)
  {
  }

  lemma AppendAssociates(a: string, b: string, c: string)
    ensures a + b + c == a + (b + c)
  {
  }

  lemma BodyAppend(es: seq<Entry>, e: Entry)
    ensures Body(es + [e]) ==
      match Body(es)
      case Failure(err) => Failure(err)
      case Success(t) => if e.key == [] then Failure(IllegalArgument) else Success(t + EntryText(e))
  {
    assert (es + [e])[..|es|] == es;
  }

  /** Entry `i` is kept by Without exactly when it is not the skipped one. */
  lemma WithoutPrefix(vs: seq<Entry>, skip: int, i: nat)
    requires i < |vs| && -1 <= skip < |vs|
    ensures Without(vs[..i + 1], skip) ==
      if i == skip then Without(vs[..i], skip) else Without(vs[..i], skip) + [vs[i]]
  {
    if 0 <= skip < i {
      assert vs[..i + 1][..skip] == vs[..i][..skip];
      assert vs[..i + 1][skip + 1..] == vs[..i][skip + 1..] + [vs[i]];
    } else if skip == i {
      assert vs[..i + 1][..skip] == vs[..i];
    } else {
      assert vs[..i + 1] == vs[..i] + [vs[i]];
    }
  }

  /** Passing over the skipped entry leaves the entry texts unchanged. */
  lemma BodySkip(vs: seq<Entry>, skip: int, i: nat)
    requires 0 <= i == skip < |vs|
    ensures Body(Without(vs[..i + 1], skip)) == Body(Without(vs[..i], skip))
  {
    WithoutPrefix(vs, skip, i);
  }

  /** Passing over any other entry appends its text. */
  lemma BodyStep(vs: seq<Entry>, skip: int, i: nat, body: string)
    requires i < |vs| && -1 <= skip < |vs| && i != skip && vs[i].key != []
    requires Body(Without(vs[..i], skip)) == Success(body)
    ensures Body(Without(vs[..i + 1], skip)) == Success(body + EntryText(vs[i]))
  {
    WithoutPrefix(vs, skip, i);
    BodyAppend(Without(vs[..i], skip), vs[i]);
  }

  lemma WithoutIndex(vs: seq<Entry>, skip: int, i: nat)
    requires i < |vs| && i != skip && -1 <= skip < |vs|
    ensures 0 <= skip < i ==> Without(vs, skip)[i - 1] == vs[i]
    ensures !(0 <= skip < i) ==> Without(vs, skip)[i] == vs[i]
  {
  }

  /** An empty key at an index other than the leading value's makes Serialize throw. */
  lemma EmptyKeyRejected(vs: seq<Entry>, skip: int, i: nat)
    requires i < |vs| && i != skip && skip == FirstValueIndex(vs) && vs[i].key == []
    ensures Serialized(Some(vs)) == Failure(IllegalArgument)
  {
    WithoutIndex(vs, skip, i);
    BodyFailsIffEmptyKey(Without(vs, skip));
  }

  lemma SerializedFromParts(vs: seq<Entry>, body: string)
    requires Body(Without(vs, FirstValueIndex(vs))) == Success(body)
    ensures Serialized(Some(vs)) == Success(Head(vs) + body)
  {
  }

  /**
   * The first loop of Serialize: finds the first entry keyed "Value", writes
   * its escaped value and returns its index (-1 when there is none).
   */
  method WriteLeadingValue(vs: seq<Entry>, sb: StringBuilder) returns (skip: int)
    modifies sb
    ensures skip == FirstValueIndex(vs)
    ensures sb.text == old(sb.text) + Head(vs)
  {
    skip := -1;
    var i := 0;
    while i < |vs|
      invariant 0 <= i <= |vs|
      invariant forall j :: 0 <= j < i ==> vs[j].key != ValueKey
      invariant sb.text == old(sb.text)
    {
      if vs[i].key == ValueKey {
        skip := i;
        EscapeValue(vs[i].value, sb);
        assert FirstValueIndex(vs) == i;
        return;
      }
      i := i + 1;
    }
    assert sb.text == old(sb.text) + [];
  }

  /**
   * One pass of Serialize's second loop: `;`, the escaped key, `=` and the
   * escaped value; an empty key throws once the `;` is written.
   */
  method WriteEntry(e: Entry, sb: StringBuilder) returns (outcome: Outcome<Error>)
    modifies sb
    ensures outcome == if e.key == [] then Fail(IllegalArgument) else Pass
    ensures outcome.Fail? ==> sb.text == old(sb.text) + ";"
    ensures outcome.Pass? ==> sb.text == old(sb.text) + EntryText(e)
  {
    sb.Append(";");
    outcome := EscapeKey(e.key, sb);
    if outcome.Fail? {
      assert sb.text == old(sb.text) + ";" + [];
      return;
    }
    sb.Append("=");
    EscapeValue(e.value, sb);
    EntryTextAfter(old(sb.text), e);
  }

  /**
   * Serialize, proved to return `Serialized(values)`: the leading value
   * first, then every other entry in list order.
   */
  method Serialize(values: Option<seq<Entry>>) returns (r: Result<string, Error>)
    ensures r == Serialized(values)
    ensures values.None? ==> r == Failure(IllegalArgument)
    ensures values == Some([]) ==> r == Success([])
  {
    if values.None? {
      return Failure(IllegalArgument);
    }
    var vs := values.value;
    var sb := new StringBuilder();
    var skip := WriteLeadingValue(vs, sb);
    ghost var head := Head(vs);
    assert sb.text == head by {
      var empty: string := [];
      assert empty + head == head;
    }
    var i := 0;
    ghost var body: string := [];
    while i < |vs|
      invariant 0 <= i <= |vs|
      invariant skip == FirstValueIndex(vs)
      invariant Body(Without(vs[..i], skip)) == Success(body)
      invariant sb.text == head + body
    {
      if skip == i {
        BodySkip(vs, skip, i);
        i := i + 1;
        continue;
      }
      var outcome := WriteEntry(vs[i], sb);
      if outcome.Fail? {
        EmptyKeyRejected(vs, skip, i);
        return Failure(IllegalArgument);
      }
      AppendAssociates(head, body, EntryText(vs[i]));
      BodyStep(vs, skip, i, body);
      body := body + EntryText(vs[i]);
      i := i + 1;
    }
    assert vs[..|vs|] == vs;
    SerializedFromParts(vs, body);
    if vs == [] {
      SerializeEmptyList();
    }
    return Success(sb.text);
  }

  lemma WithoutEmptyKey(vs: seq<Entry>, skip: int)
    requires -1 <= skip < |vs|
    ensures !KeysNonEmpty(Without(vs, skip)) <==>
      exists k :: 0 <= k < |vs| && k != skip && vs[k].key == []
  {
    var others := Without(vs, skip);
    if !KeysNonEmpty(others) {
      var j :| 0 <= j < |others| && others[j].key == [];
      var k := if 0 <= skip <= j then j + 1 else j;
      assert vs[k] == others[j];
    }
    if k :| 0 <= k < |vs| && k != skip && vs[k].key == [] {
      WithoutIndex(vs, skip, k);
    }
  }

  /**
   * Serialize throws IllegalArgumentException exactly when some entry other
   * than the leading value has an empty (or null) key.
   */
  lemma SerializeFailsIffEmptyKey(vs: seq<Entry>)
    ensures Serialized(Some(vs)).Failure? <==>
      exists k :: 0 <= k < |vs| && k != FirstValueIndex(vs) && vs[k].key == []
    ensures Serialized(Some(vs)).Failure? ==> Serialized(Some(vs)).error == IllegalArgument
  {
    var skip := FirstValueIndex(vs);
    WithoutEmptyKey(vs, skip);
    BodyFailsIffEmptyKey(Without(vs, skip));
  }

  lemma FirstValueIndexAppend(vs: seq<Entry>, e: Entry)
    requires FirstValueIndex(vs) >= 0 || e.key != ValueKey
    ensures FirstValueIndex(vs + [e]) == FirstValueIndex(vs)
  {
    var vs' := vs + [e];
    var k := FirstValueIndex(vs);
    if k >= 0 {
      assert vs'[k] == vs[k];
      assert forall j :: 0 <= j < k ==> vs'[j] == vs[j];
    } else {
      forall j | 0 <= j < |vs'| ensures vs'[j].key != ValueKey {
        if j < |vs| { assert vs'[j] == vs[j]; }
      }
    }
  }

  lemma HeadAppend(vs: seq<Entry>, e: Entry)
    requires FirstValueIndex(vs) >= 0 || e.key != ValueKey
    ensures Head(vs + [e]) == Head(vs)
  {
    FirstValueIndexAppend(vs, e);
    var k := FirstValueIndex(vs);
    if k >= 0 { assert (vs + [e])[k] == vs[k]; }
  }

  lemma WithoutAppend(vs: seq<Entry>, e: Entry, skip: int)
    requires -1 <= skip < |vs|
    ensures Without(vs + [e], skip) == Without(vs, skip) + [e]
  {
    var vs' := vs + [e];
    assert vs'[..|vs|] == vs && vs'[..|vs'|] == vs';
    WithoutPrefix(vs', skip, |vs|);
  }

  /**
   * Appending an entry that is not taken as the leading value appends its
   * text: entries are written in list order, and a "Value" entry after the
   * first one is written as an ordinary key.
   */
  lemma SerializeAppend(vs: seq<Entry>, e: Entry)
    requires e.key != []
    requires FirstValueIndex(vs) >= 0 || e.key != ValueKey
    ensures Serialized(Some(vs + [e])) ==
      match Serialized(Some(vs))
      case Success(t) => Success(t + EntryText(e))
      case Failure(err) => Failure(err)
  {
    FirstValueIndexAppend(vs, e);
    HeadAppend(vs, e);
    WithoutAppend(vs, e, FirstValueIndex(vs));
    var others := Without(vs, FirstValueIndex(vs));
    BodyAppend(others, e);
    if Body(others).Success? {
      AppendAssociates(Head(vs), Body(others).value, EntryText(e));
    }
  }

  /**
   * A list that starts with its only "Value" entry serializes to the escaped
   * value followed by what the remaining entries serialize to on their own.
   */
  lemma SerializeLeadingValue(v: Option<string>, rest: seq<Entry>)
    requires forall j :: 0 <= j < |rest| ==> rest[j].key != ValueKey
    ensures Serialized(Some([Entry(ValueKey, v)] + rest)) ==
      match Serialized(Some(rest))
      case Success(t) => Success(EscapedValue(v) + t)
      case Failure(err) => Failure(err)
  {
    var vs := [Entry(ValueKey, v)] + rest;
    assert FirstValueIndex(vs) == 0;
    assert Without(vs, 0) == rest;
    assert FirstValueIndex(rest) == -1;
    assert Head(vs) == EscapedValue(v);
    assert Head(rest) == [];
    if Body(rest).Success? {
      assert [] + Body(rest).value == Body(rest).value;
    }
  }

  /** An empty list serializes to the empty text. */
  lemma SerializeEmptyList()
    ensures Serialized(Some([])) == Success([])
  {
    var none: seq<Entry> := [];
    assert FirstValueIndex(none) == -1;
    assert Without(none, -1) == none;
    assert Body(none) == Success([]);
    assert Head(none) + [] == [];
  }

  /** A list holding one ordinary entry serializes to that entry's text alone. */
  lemma SerializeSingle(e: Entry)
    requires e.key != [] && e.key != ValueKey
    ensures Serialized(Some([e])) == Success(EntryText(e))
  {
    var none: seq<Entry> := [];
    SerializeEmptyList();
    SerializeAppend(none, e);
    assert none + [e] == [e];
    var empty: string := [];
    assert empty + EntryText(e) == EntryText(e);
  }

  /** A keyed entry with a null value is still written with its `=`: (f, null) writes `;f=`. */
  lemma NullValueKeepsEquals(f: string)
    requires forall c :: c in f ==> c !in KeyChars
    ensures EntryText(Entry(f, None)) == ";" + f + "="
  {
    DoubledUnchanged(f, KeyChars);
  }

  /** An `=` inside a key is written twice: ("a=b", w) writes `;a==b=w`. */
  lemma EscapesKeyEquals(w: string)
    requires ';' !in w
    ensures EntryText(Entry("a=b", Some(w))) == ";a==b=" + w
  {
    assert Doubled("a=b", KeyChars) == "a==b" by {
      assert "a=b"[1..] == "=b" && "=b"[1..] == "b" && "b"[1..] == [];
    }
  }
}
