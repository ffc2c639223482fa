/**
 * Parse: a single left-to-right scan over the text with a handful of flags.
 * `Step` is one pass of the scanning loop, `Scan` runs it to the end and
 * `Parsed` is what Parse returns; the method `Parse` is the loop itself,
 * proved to return `Parsed(value)`.
 *
 * The scan keeps the quirks of the code it models: every substring is taken
 * with a length where an end index is expected, nothing is unescaped, and
 * the character after the end of the leading segment is skipped.
 */
module Parser {
  import opened Wrappers
  import opened JavaText
  import opened Entries

  /**
   * The loop's variables. `isKey` is left out: it starts true and is only
   * ever set to true again. `captureStart` is the start of the current
   * capture; `capturedKey` is meaningful only while `isValue` holds.
   */
  datatype ScanState = ScanState(
    i: int,
    isStart: bool,
    isValue: bool,
    captureStart: int,
    capturedKey: string,
    result: seq<Entry>)

  /**
   * The state before the first pass, or at index `i` of a leading segment
   * that has captured nothing yet: capture start 0, no entries.
   */
  function Scanning(i: int): ScanState
  {
    ScanState(i, true, false, 0, [], [])
  }

  /** The character at `k`, or NUL past either end, as the loop reads `c` and `cp1`. */
  function CharAt(value: string, k: int): char
  {
    if 0 <= k < |value| then value[k] else Nul
  }

  /** Whether `c` is one of the characters the scan reacts to. */
  predicate Reserved(c: char)
  {
    c == ';' || c == '='
  }

  /**
   * One pass of the loop body followed by the loop's own `i++`. The first
   * two branches are the leading-segment branch; a doubled `;` there falls
   * through to the key branch, which sees the same pair and skips again.
   */
  function Step(value: string, st: ScanState): (r: Result<ScanState, Error>)
    requires 0 <= st.i <= |value|
    ensures r.Success? ==> st.i < r.value.i <= st.i + 3
    ensures r.Failure? ==> r.error == StringIndexOutOfBounds
  {
    var isEnd := st.i == |value|;
    var c := CharAt(value, st.i);
    var cp1 := CharAt(value, st.i + 1);
    var captureLength := st.i - st.captureStart;
    if st.isStart && c == ';' && cp1 == ';' then
      Success(st.(i := st.i + 3))
    else if st.isStart && ((c == ';' && cp1 != ';') || isEnd) then
      match Substring(value, st.captureStart, captureLength)
      case Failure(err) => Failure(err)
      case Success(sub) =>
        Success(st.(i := st.i + 2, isStart := false, captureStart := st.i + 1,
                    result := st.result + [Entry(ValueKey, Some(sub))]))
    else if (c == '=' && cp1 == '=') || (c == ';' && cp1 == ';') then
      Success(st.(i := st.i + 2))
    else if (c == ';' && cp1 != ';') || isEnd then
      match Substring(value, st.captureStart, captureLength)
      case Failure(err) => Failure(err)
      case Success(sub) =>
        if st.isValue then
          Success(st.(i := st.i + 1, isValue := false, captureStart := st.i + 1,
                      result := st.result + [Entry(st.capturedKey, Some(sub))]))
        else
          Success(st.(i := st.i + 1, capturedKey := sub, captureStart := st.i + 1,
                      result := st.result + [Entry(sub, None)]))
    else if c == '=' && cp1 != '=' then
      match Substring(value, st.captureStart, captureLength)
      case Failure(err) => Failure(err)
      case Success(sub) =>
        Success(st.(i := st.i + 1, capturedKey := sub, isValue := true, isStart := false,
                    captureStart := st.i + 1))
    else
      Success(st.(i := st.i + 1))
  }

  /** The loop run from `st` until `i` passes the end of the text. */
  function Scan(value: string, st: ScanState): (r: Result<seq<Entry>, Error>)
    requires 0 <= st.i
    ensures r.Failure? ==> r.error == StringIndexOutOfBounds
    decreases |value| + 1 - st.i
  {
    if st.i > |value| then Success(st.result)
    else
      match Step(value, st)
      case Failure(err) => Failure(err)
      case Success(next) => Scan(value, next)
  }

  /** What Parse returns: IllegalArgumentException for null, otherwise the scan from the start. */
  function Parsed(value: Option<string>): Result<seq<Entry>, Error>
  {
    match value
    case None => Failure(IllegalArgument)
    case Some(s) => Scan(s, Scanning(0))
  }

  /** One pass only ever appends: earlier entries stay, and at most one is added. */
  lemma StepAppends(value: string, st: ScanState)
    requires 0 <= st.i <= |value| && Step(value, st).Success?
    ensures st.result <= Step(value, st).value.result
    ensures |Step(value, st).value.result| <= |st.result| + 1
  {
  }

  /** A scan never takes back an entry: the entries found so far begin its result. */
  lemma {:induction false} ScanAppends(value: string, st: ScanState)
    requires 0 <= st.i && Scan(value, st).Success?
    ensures st.result <= Scan(value, st).value
    decreases |value| + 1 - st.i
  {
    if st.i <= |value| {
      var next := Step(value, st).value;
      StepAppends(value, st);
      ScanAppends(value, next);
    }
  }

  /** A successful pass hands the rest of the scan to the state it produced. */
  lemma ScanAdvances(value: string, st: ScanState, next: ScanState)
    requires 0 <= st.i <= |value| && Step(value, st) == Success(next)
    ensures Scan(value, st) == Scan(value, next)
  {
  }

  /** A pass that throws ends the scan with that exception. */
  lemma ScanFails(value: string, st: ScanState)
    requires 0 <= st.i <= |value| && Step(value, st).Failure?
    ensures Scan(value, st) == Failure(StringIndexOutOfBounds)
  {
  }

  /**
   * Parse, proved to return `Parsed(value)`: the scanning loop over the
   * text, adding entries to a list as segments end.
   */
  method Parse(value: Option<string>) returns (r: Result<seq<Entry>, Error>)
    ensures r == Parsed(value)
    ensures value.None? <==> r == Failure(IllegalArgument)
    ensures value.Some? && r.Failure? ==> r.error == StringIndexOutOfBounds
  {
    if value.None? {
      return Failure(IllegalArgument);
    }
    var s := value.value;
    var result := new EntryList();
    var isStart, isKey, isValue, isEnd := true, true, false, false;
    var capturedKey: string := [];
    var captureStart := 0;
    var i := captureStart;
    while i <= |s|
      invariant 0 <= i && isKey
      invariant isEnd ==> i > |s|
      invariant Scan(s, ScanState(i, isStart, isValue, captureStart, capturedKey, result.items)) == Parsed(value)
      decreases |s| + 1 - i
    {
      ghost var st := ScanState(i, isStart, isValue, captureStart, capturedKey, result.items);
      var c, cp1, captureLength;
      if i == |s| {
        c, cp1 := Nul, Nul;
        isEnd := true;
        captureLength := i - captureStart;
      } else {
        c := s[i];
        cp1 := if i + 1 < |s| then s[i + 1] else Nul;
        captureLength := i - captureStart;
      }
      assert c == CharAt(s, i) && cp1 == CharAt(s, i + 1) && isEnd == (i == |s|);

      if isStart {
        if c == ';' && cp1 == ';' {
          i := i + 1;
        } else if (c == ';' && cp1 != ';') || isEnd {
          var sub := Substring(s, captureStart, captureLength);
          if sub.Failure? {
            ScanFails(s, st);
            return Failure(sub.error);
          }
          AddToResult(result, ValueKey, Some(sub.value));
          i := i + 1;
          isStart := false;
          isKey := true;
          captureStart := i;
          i := i + 1;
          ScanAdvances(s, st, ScanState(i, isStart, isValue, captureStart, capturedKey, result.items));
          continue;
        }
      }

      if isKey {
        if (c == '=' && cp1 == '=') || (c == ';' && cp1 == ';') {
          i := i + 1;
        } else if (c == ';' && cp1 != ';') || isEnd {
          var sub := Substring(s, captureStart, captureLength);
          if sub.Failure? {
            ScanFails(s, st);
            return Failure(sub.error);
          }
          if isValue {
            AddToResult(result, capturedKey, Some(sub.value));
          } else {
            capturedKey := sub.value;
            AddToResult(result, capturedKey, None);
          }
          isValue := false;
          captureStart := i + 1;
          i := i + 1;
          ScanAdvances(s, st, ScanState(i, isStart, isValue, captureStart, capturedKey, result.items));
          continue;
        } else if c == '=' && cp1 != '=' {
          var sub := Substring(s, captureStart, captureLength);
          if sub.Failure? {
            ScanFails(s, st);
            return Failure(sub.error);
          }
          capturedKey := sub.value;
          isValue := true;
          isStart := false;
          captureStart := i + 1;
        }
      }
      i := i + 1;
      ScanAdvances(s, st, ScanState(i, isStart, isValue, captureStart, capturedKey, result.items));
    }
    return Success(result.items);
  }

  /** In the leading segment, a character that is neither `;` nor `=` is simply passed over. */
  lemma {:induction false} ScanPlainRun(value: string, i: int, j: int)
    requires 0 <= i <= j <= |value|
    requires forall k :: i <= k < j ==> !Reserved(value[k])
    ensures Scan(value, Scanning(i)) == Scan(value, Scanning(j))
    decreases j - i
  {
    if i < j {
      assert Step(value, Scanning(i)) == Success(Scanning(i + 1));
      ScanPlainRun(value, i + 1, j);
    }
  }

  /**
   * A text with no `;` and no `=` (the empty text included) parses to the
   * single entry ("Value", text).
   */
  lemma ParsePlain(s: string)
    requires forall k :: 0 <= k < |s| ==> !Reserved(s[k])
    ensures Parsed(Some(s)) == Success([Entry(ValueKey, Some(s))])
  {
    ScanPlainRun(s, 0, |s|);
    assert s[0..|s|] == s;
    var none: seq<Entry> := [];
    assert none + [Entry(ValueKey, Some(s))] == [Entry(ValueKey, Some(s))];
    var next := ScanState(|s| + 2, false, false, |s| + 1, [], [Entry(ValueKey, Some(s))]);
    assert Step(s, Scanning(|s|)) == Success(next);
  }

  /** The empty text parses to the single entry ("Value", ""). */
  lemma ParseEmpty()
    ensures Parsed(Some("")) == Success([Entry(ValueKey, Some(""))])
  {
    ParsePlain("");
  }

  /**
   * The leading segment: when the text starts with a segment free of `;` and
   * `=` followed by a single `;`, that segment is the first entry, keyed
   * "Value"; when nothing follows the `;`, it is the only entry.
   */
  lemma ParseLeadingSegment(s: string, t: string)
    requires forall k :: 0 <= k < |s| ==> !Reserved(s[k])
    requires t == [] || t[0] != ';'
    ensures Parsed(Some(s + ";" + t)).Success? ==>
      |Parsed(Some(s + ";" + t)).value| > 0 && Parsed(Some(s + ";" + t)).value[0] == Entry(ValueKey, Some(s))
    ensures t == [] ==> Parsed(Some(s + ";")) == Success([Entry(ValueKey, Some(s))])
  {
    var v := s + ";" + t;
    assert forall k :: 0 <= k < |s| ==> v[k] == s[k];
    ScanPlainRun(v, 0, |s|);
    assert v[|s|] == ';' && CharAt(v, |s| + 1) != ';';
    assert v[0..|s|] == s;
    var none: seq<Entry> := [];
    assert none + [Entry(ValueKey, Some(s))] == [Entry(ValueKey, Some(s))];
    var next := ScanState(|s| + 2, false, false, |s| + 1, [], [Entry(ValueKey, Some(s))]);
    assert Step(v, Scanning(|s|)) == Success(next);
    if Scan(v, next).Success? {
      ScanAppends(v, next);
    }
    if t == [] {
      assert v == s + ";";
    }
  }

  /** Whether `x` is a run of consecutive characters of `s`, taken verbatim. */
  ghost predicate IsSliceOf(x: string, s: string)
  {
    exists b, e :: 0 <= b <= e <= |s| && x == s[b..e]
  }

  /** Whether an entry's key is "Value" or verbatim text of `s`, and its value null or verbatim text. */
  ghost predicate FromText(e: Entry, s: string)
  {
    (e.key == ValueKey || IsSliceOf(e.key, s)) && (e.value.None? || IsSliceOf(e.value.value, s))
  }

  ghost predicate SlicedState(s: string, st: ScanState)
  {
    IsSliceOf(st.capturedKey, s) && forall k :: 0 <= k < |st.result| ==> FromText(st.result[k], s)
  }

  lemma SubstringIsSlice(s: string, begin: int, end: int)
    requires Substring(s, begin, end).Success?
    ensures IsSliceOf(Substring(s, begin, end).value, s)
  {
    assert Substring(s, begin, end).value == s[begin..end];
  }

  lemma StepKeepsSlices(s: string, st: ScanState)
    requires 0 <= st.i <= |s| && SlicedState(s, st) && Step(s, st).Success?
    ensures SlicedState(s, Step(s, st).value)
  {
    var sub := Substring(s, st.captureStart, st.i - st.captureStart);
    if sub.Success? {
      SubstringIsSlice(s, st.captureStart, st.i - st.captureStart);
    }
    var next := Step(s, st).value;
    forall k | 0 <= k < |next.result|
      ensures FromText(next.result[k], s)
    {
      if k < |st.result| {
        assert next.result[k] == st.result[k];
      }
    }
  }

  lemma {:induction false} ScanKeepsSlices(s: string, st: ScanState)
    requires 0 <= st.i && SlicedState(s, st) && Scan(s, st).Success?
    ensures forall k :: 0 <= k < |Scan(s, st).value| ==> FromText(Scan(s, st).value[k], s)
    decreases |s| + 1 - st.i
  {
    if st.i <= |s| {
      StepKeepsSlices(s, st);
      ScanKeepsSlices(s, Step(s, st).value);
    }
  }

  /**
   * Nothing is unescaped: every key Parse returns is "Value" or a run of the
   * input taken verbatim, and every value is null or a verbatim run.
   */
  lemma ParseTakesSlices(s: string)
    requires Parsed(Some(s)).Success?
    ensures forall k :: 0 <= k < |Parsed(Some(s)).value| ==> FromText(Parsed(Some(s)).value[k], s)
  {
    assert s[0..0] == [];
    ScanKeepsSlices(s, Scanning(0));
  }

  /**
   * A value is pending only after a single `=`: a pass that sets `isValue`
   * read `=` not followed by `=`, and starts the capture just after it.
   * Past the leading segment, an entry added while no value is pending is
   * a key with a null value.
   */
  lemma StepValueOnlyAfterEquals(s: string, st: ScanState)
    requires 0 <= st.i <= |s| && !st.isValue && Step(s, st).Success?
    ensures var next := Step(s, st).value;
      next.isValue ==> CharAt(s, st.i) == '=' && CharAt(s, st.i + 1) != '=' && next.captureStart == st.i + 1
    ensures var next := Step(s, st).value;
      !st.isStart && |next.result| > |st.result| ==> next.result[|st.result|].value.None?
  {
  }

  /** Whether the text has no `=` from index `i` on. */
  predicate NoEqualsFrom(s: string, i: int)
  {
    forall k :: 0 <= k < |s| && i <= k ==> s[k] != '='
  }

  /**
   * Past the leading segment with no value pending, a pass over a rest of
   * the text without `=` sets no value pending and adds only null values.
   */
  lemma StepKeepsNoValue(s: string, st: ScanState)
    requires 0 <= st.i <= |s| && !st.isStart && !st.isValue && NoEqualsFrom(s, st.i)
    requires Step(s, st).Success?
    ensures var next := Step(s, st).value;
      && !next.isStart && !next.isValue && st.result <= next.result
      && forall k :: |st.result| <= k < |next.result| ==> next.result[k].value.None?
  {
    assert CharAt(s, st.i) != '=' && CharAt(s, st.i + 1) != '=';
  }

  /**
   * Every key segment that starts past the leading segment, with no value
   * pending and no `=` in the rest of the text, gets a null value.
   */
  lemma {:induction false} ScanKeepsNoValue(s: string, st: ScanState)
    requires 0 <= st.i && !st.isStart && !st.isValue && NoEqualsFrom(s, st.i)
    requires Scan(s, st).Success?
    ensures forall k :: |st.result| <= k < |Scan(s, st).value| ==> Scan(s, st).value[k].value.None?
    decreases |s| + 1 - st.i
  {
    if st.i <= |s| {
      var next := Step(s, st).value;
      StepKeepsNoValue(s, st);
      ScanKeepsNoValue(s, next);
      ScanAppends(s, next);
      var r := Scan(s, st).value;
      forall k | |st.result| <= k < |r|
        ensures r[k].value.None?
      {
        if k < |next.result| {
          assert r[k] == next.result[k];
        }
      }
    }
  }

  /**
   * In the leading segment of a text without `=` from `st.i` on, the scan
   * adds the "Value" entry first (if anything), then only null values.
   */
  lemma {:induction false} ScanLeadNoValue(s: string, st: ScanState)
    requires 0 <= st.i && st.isStart && !st.isValue && st.result == [] && NoEqualsFrom(s, st.i)
    requires Scan(s, st).Success?
    ensures var r := Scan(s, st).value;
      && (|r| > 0 ==> r[0].key == ValueKey)
      && forall k :: 0 < k < |r| ==> r[k].value.None?
    decreases |s| + 1 - st.i
  {
    if st.i <= |s| {
      assert CharAt(s, st.i) != '=';
      var next := Step(s, st).value;
      if next.isStart {
        assert next.result == [] && !next.isValue;
        ScanLeadNoValue(s, next);
      } else {
        assert |next.result| == 1 && next.result[0].key == ValueKey && !next.isValue;
        ScanKeepsNoValue(s, next);
        ScanAppends(s, next);
        assert Scan(s, st).value[0] == next.result[0];
      }
    }
  }

  /**
   * Without `=` in the text, the first entry (if any) is the leading
   * "Value" and every later entry is a key with a null value.
   */
  lemma ParseWithoutEquals(s: string)
    requires forall k :: 0 <= k < |s| ==> s[k] != '='
    requires Parsed(Some(s)).Success?
    ensures var r := Parsed(Some(s)).value;
      && (|r| > 0 ==> r[0].key == ValueKey)
      && forall k :: 0 < k < |r| ==> r[k].value.None?
  {
    ScanLeadNoValue(s, Scanning(0));
  }

  /** A doubled `;` in the leading segment is kept doubled in the value. */
  lemma ParseKeepsDoubledSemicolon()
    ensures Parsed(Some("a;;b")) == Success([Entry(ValueKey, Some("a;;b"))])
  {
    var v := "a;;b";
    ScanAdvances(v, Scanning(0), Scanning(1));
    ScanAdvances(v, Scanning(1), Scanning(4));
    assert v[0..4] == v;
    var none: seq<Entry> := [];
    assert none + [Entry(ValueKey, Some(v))] == [Entry(ValueKey, Some(v))];
    ScanAdvances(v, Scanning(4), ScanState(6, false, false, 5, [], [Entry(ValueKey, Some(v))]));
  }

  /** A key's capture is cut short: its length is used as its end index. */
  lemma ParseTruncatesKey()
    ensures Parsed(Some("x;flag")) == Success([Entry(ValueKey, Some("x")), Entry("fl", None)])
  {
    var v := "x;flag";
    var none: seq<Entry> := [];
    var lead := [Entry(ValueKey, Some("x"))];
    ScanAdvances(v, Scanning(0), Scanning(1));
    assert v[0..1] == "x";
    assert none + lead == lead;
    var after := ScanState(3, false, false, 2, [], lead);
    ScanAdvances(v, Scanning(1), after);
    ScanAdvances(v, after, after.(i := 4));
    ScanAdvances(v, after.(i := 4), after.(i := 5));
    ScanAdvances(v, after.(i := 5), after.(i := 6));
    assert v[2..4] == "fl";
    assert lead + [Entry("fl", None)] == [Entry(ValueKey, Some("x")), Entry("fl", None)];
    ScanAdvances(v, after.(i := 6), ScanState(7, false, false, 7, "fl", lead + [Entry("fl", None)]));
  }

  /** A value after a single `=` is read with an end index below its start, which throws. */
  lemma ParseKeyValueThrows()
    ensures Parsed(Some("a=b")) == Failure(StringIndexOutOfBounds)
  {
    var v := "a=b";
    ScanAdvances(v, Scanning(0), Scanning(1));
    assert v[0..1] == "a";
    var keyed := ScanState(2, false, true, 2, "a", []);
    ScanAdvances(v, Scanning(1), keyed);
    ScanAdvances(v, keyed, keyed.(i := 3));
    ScanFails(v, keyed.(i := 3));
  }

  /** The same holds after a leading segment: the value's end index lies before its start. */
  lemma ParseKeyValueAfterLeadThrows()
    ensures Parsed(Some("v;key=val")) == Failure(StringIndexOutOfBounds)
  {
    var v := "v;key=val";
    var none: seq<Entry> := [];
    var lead := [Entry(ValueKey, Some("v"))];
    ScanAdvances(v, Scanning(0), Scanning(1));
    assert v[0..1] == "v";
    assert none + lead == lead;
    var after := ScanState(3, false, false, 2, [], lead);
    ScanAdvances(v, Scanning(1), after);
    ScanAdvances(v, after, after.(i := 4));
    ScanAdvances(v, after.(i := 4), after.(i := 5));
    assert v[2..3] == "k";
    var keyed := ScanState(6, false, true, 6, "k", lead);
    ScanAdvances(v, after.(i := 5), keyed);
    ScanAdvances(v, keyed, keyed.(i := 7));
    ScanAdvances(v, keyed.(i := 7), keyed.(i := 8));
    ScanAdvances(v, keyed.(i := 8), keyed.(i := 9));
    ScanFails(v, keyed.(i := 9));
  }

  /** A doubled `;` at the very end skips the end of the text, so no entry is added. */
  lemma ParseDropsTrailingDoubledSemicolon()
    ensures Parsed(Some("a;;")) == Success([])
  {
  }

  /** A single `=` in the leading segment ends it without a "Value" entry. */
  lemma ParseLeadingEquals()
    ensures Parsed(Some("=x")) == Success([Entry([], Some([]))])
  {
    var v := "=x";
    var none: seq<Entry> := [];
    assert v[0..0] == [] && v[1..1] == [];
    var keyed := ScanState(1, false, true, 1, [], []);
    ScanAdvances(v, Scanning(0), keyed);
    ScanAdvances(v, keyed, keyed.(i := 2));
    assert none + [Entry([], Some([]))] == [Entry([], Some([]))];
    ScanAdvances(v, keyed.(i := 2), ScanState(3, false, false, 3, [], [Entry([], Some([]))]));
  }

  /**
   * The character just after the end of the leading segment is skipped: the
   * `=` in "v;=x" is never examined, so no value capture starts there.
   */
  lemma ParseSkipsAfterLead()
    ensures Parsed(Some("v;=x")) == Success([Entry(ValueKey, Some("v")), Entry([], None)])
  {
    var v := "v;=x";
    var none: seq<Entry> := [];
    var lead := [Entry(ValueKey, Some("v"))];
    ScanAdvances(v, Scanning(0), Scanning(1));
    assert v[0..1] == "v";
    assert none + lead == lead;
    var after := ScanState(3, false, false, 2, [], lead);
    ScanAdvances(v, Scanning(1), after);
    ScanAdvances(v, after, after.(i := 4));
    assert v[2..2] == [];
    assert lead + [Entry([], None)] == [Entry(ValueKey, Some("v")), Entry([], None)];
    ScanAdvances(v, after.(i := 4), ScanState(5, false, false, 5, [], lead + [Entry([], None)]));
  }

  /** A `;;` that ends a key segment advances by two only, so the end pass still runs. */
  lemma ParseKeepsEndAfterKeyPair()
    ensures Parsed(Some("x;k;;")) == Success([Entry(ValueKey, Some("x")), Entry("k", None)])
  {
    var v := "x;k;;";
    var none: seq<Entry> := [];
    var lead := [Entry(ValueKey, Some("x"))];
    ScanAdvances(v, Scanning(0), Scanning(1));
    assert v[0..1] == "x";
    assert none + lead == lead;
    var after := ScanState(3, false, false, 2, [], lead);
    ScanAdvances(v, Scanning(1), after);
    ScanAdvances(v, after, after.(i := 5));
    assert v[2..3] == "k";
    assert lead + [Entry("k", None)] == [Entry(ValueKey, Some("x")), Entry("k", None)];
    ScanAdvances(v, after.(i := 5), ScanState(6, false, false, 6, "k", lead + [Entry("k", None)]));
  }
}
