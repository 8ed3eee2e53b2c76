/**
 * The agent's output parser (`CustomOutputParser.parse`): one block of text
 * produced by the language model becomes a final answer, a request to run a
 * tool, or a parse error.
 *
 * 1. Text containing `Final Answer:` is a final answer: what follows the last
 *    marker, stripped.
 * 2. Otherwise the tool name is group 1 of `Action: (.*?)[\n]` and the tool
 *    input text group 1 of `Action Input: (.*)`, both stripped; if either is
 *    not found the text is rejected.
 * 3. The tool input is the JSON the text decodes to; failing that, the pair
 *    of numbers written `"a": <decimal>` and `"b": <decimal>` in it; failing
 *    that, the text itself.
 */
module OutputParser {
  import opened Wrappers
  import opened Text
  import opened Json
  import opened Patterns

  /** What the parser hands to the tool. */
  datatype ToolInput =
    | Decoded(value: JsonValue)
    | NumPair(a: string, b: string)
    | Raw(text: string)

  /** `AgentFinish`, `AgentAction`, or the `ValueError` that `parse` raises. */
  datatype ParseResult =
    | Finish(output: string, log: string)
    | Action(tool: string, input: ToolInput, log: string)
    | ParseError(message: string)

  const FinalAnswerMarker: string := "Final Answer:"
  const ErrorPrefix: string := "N\U{e3}o foi poss\U{ed}vel analisar a sa\U{ed}da do LLM: `"

  /** The text carries an `Action: ` that has a newline somewhere after it. */
  ghost predicate HasActionLine(text: string) {
    exists p: nat, n: nat :: OccursAt(text, p, ActionPrefix) && p + |ActionPrefix| <= n < |text| && text[n] == '\n'
  }

  /** The numeric pattern for `key` matches somewhere in `s`. */
  ghost predicate HasNumericField(s: string, key: char) {
    exists i: nat :: MatchAt(NumericField(key), s, i).Some?
  }

  /** `p` is where `sub` first occurs in `s`. */
  ghost predicate IsFirstOccurrence(s: string, p: nat, sub: string) {
    OccursAt(s, p, sub) && forall q: nat :: q < p ==> !OccursAt(s, q, sub)
  }

  /** `n` ends the line that index `from` is on: a newline, or the end of the text. */
  ghost predicate IsLineEnd(s: string, from: nat, n: nat) {
    from <= n <= |s| && (n < |s| ==> s[n] == '\n') && forall k :: from <= k < n ==> s[k] != '\n'
  }

  /**
   * The stripped group 1 of the action regex and of the action input regex,
   * or `None` when either does not match.
   */
  function ExtractAction(text: string): (r: Option<(string, string)>)
    ensures r.Some? <==> HasActionLine(text) && Contains(text, ActionInputPrefix)
    ensures r.Some? ==> '\n' !in r.value.0 && '\n' !in r.value.1
  {
    ActionLineFound(text);
    ActionInputSearch(text);
    match (Search(ActionLine, text, 0), Search(ActionInputLine, text, 0))
    case (Some(am), Some(im)) =>
      var name := text[am.group.lo..am.group.hi];
      var input := text[im.group.lo..im.group.hi];
      ActionLineAt(text, am.at);
      LineHasNoNewline(text, im.group.lo, im.group.hi);
      StripKeepsCharacters(name, '\n');
      StripKeepsCharacters(input, '\n');
      Some((Strip(name), Strip(input)))
    case _ => None
  }

  /**
   * The tool input for the stripped input text `raw`: the decoded JSON if
   * `json.loads` accepts it, else the first `"a"` and `"b"` decimals if both
   * are there, else `raw` unchanged.
   */
  function DecodeToolInput(raw: string, decode: Decoder): (r: ToolInput)
    ensures r.Decoded? <==> decode(raw).Some?
    ensures r.Decoded? ==> r.value == decode(raw).value
    ensures r.NumPair? <==> decode(raw).None? && HasNumericField(raw, 'a') && HasNumericField(raw, 'b')
    ensures r.NumPair? ==> IsDecimal(r.a) && IsDecimal(r.b)
    ensures r.Raw? ==> r.text == raw
  {
    match decode(raw)
    case Some(v) => Decoded(v)
    case None =>
      var fa := Search(NumericField('a'), raw, 0);
      var fb := Search(NumericField('b'), raw, 0);
      assert fa.Some? ==> HasNumericField(raw, 'a');
      assert fb.Some? ==> HasNumericField(raw, 'b');
      if fa.Some? && fb.Some? then
        NumericFieldCapture('a', raw, fa.value.at);
        NumericFieldCapture('b', raw, fb.value.at);
        NumPair(raw[fa.value.group.lo..fa.value.group.hi], raw[fb.value.group.lo..fb.value.group.hi])
      else
        Raw(raw)
  }

  /** `CustomOutputParser.parse` with `json.loads` given as `decode`. */
  function Parse(text: string, decode: Decoder): (r: ParseResult)
    ensures r.Finish? <==> Contains(text, FinalAnswerMarker)
    ensures r.Finish? || r.Action? ==> r.log == text
    ensures r.ParseError? ==> r.message == ErrorPrefix + text + "`"
    ensures r.Action? ==> '\n' !in r.tool
  {
    if FindFirst(FinalAnswerMarker, text).Some? then
      Finish(Strip(LastPiece(text, FinalAnswerMarker)), text)
    else
      match ExtractAction(text)
      case None => ParseError(ErrorPrefix + text + "`")
      case Some((tool, raw)) => Action(tool, DecodeToolInput(raw, decode), text)
  }

  /** The action regex matches exactly when some `Action: ` has a newline after it. */
  lemma ActionLineFound(text: string)
    ensures Search(ActionLine, text, 0).Some? <==> HasActionLine(text)
  {
    var r := Search(ActionLine, text, 0);
    if r.Some? {
      ActionLineAt(text, r.value.at);
    }
    forall p: nat, n: nat | OccursAt(text, p, ActionPrefix) && p + |ActionPrefix| <= n < |text| && text[n] == '\n'
      ensures r.Some?
    {
      ActionLineAt(text, p);
    }
  }

  /** The rest of a line holds no newline. */
  lemma LineHasNoNewline(s: string, lo: nat, hi: nat)
    requires lo <= |s| && hi == LineEnd(s, lo)
    ensures '\n' !in s[lo..hi]
  {
    forall k | 0 <= k < hi - lo ensures s[lo..hi][k] != '\n' {
      assert s[lo..hi][k] == s[lo + k];
    }
  }

  /**
   * With a final answer marker in the text the result is a final answer,
   * whatever else the text holds (action lines included), and its output
   * is the stripped text after the LAST marker.
   */
  lemma {:induction false} FinishAfterLastMarker(text: string, decode: Decoder, q: nat)
    requires OccursAt(text, q, FinalAnswerMarker)
    requires forall q': nat :: q < q' ==> !OccursAt(text, q', FinalAnswerMarker)
    ensures Parse(text, decode) == Finish(Strip(text[q + |FinalAnswerMarker|..]), text)
  {
    assert Contains(text, FinalAnswerMarker);
    LastPieceAfterLastMarker(text, q);
  }

  /**
   * The same for text built as `before`, the marker, then `after`: when
   * `after` holds no marker the output is `after` stripped, whatever
   * `before` says.
   */
  lemma {:induction false} FinishTakesTextAfterMarker(before: string, after: string, decode: Decoder)
    requires !Contains(after, FinalAnswerMarker)
    ensures var text := before + FinalAnswerMarker + after;
      Parse(text, decode) == Finish(Strip(after), text)
  {
    var m := FinalAnswerMarker;
    var text := before + m + after;
    var q := |before|;
    assert text[q..q + |m|] == m;
    MarkerStartsOnce();
    forall q': nat | q < q' ensures !OccursAt(text, q', m) {
      if q' < q + |m| {
        assert text[q'] == m[q' - q];
        assert q' + |m| <= |text| ==> text[q'..q' + |m|][0] == text[q'];
      } else {
        ShiftOccurrence(text, q + |m|, q' - q - |m|, m);
        assert text[q + |m|..] == after;
      }
    }
    FinishAfterLastMarker(text, decode, q);
    assert text[q + |m|..] == after;
  }

  /**
   * `split` finds the last marker: the marker cannot overlap itself, since
   * its first character `F` appears nowhere else in it.
   */
  lemma LastPieceAfterLastMarker(text: string, q: nat)
    requires OccursAt(text, q, FinalAnswerMarker)
    requires forall q': nat :: q < q' ==> !OccursAt(text, q', FinalAnswerMarker)
    ensures LastPiece(text, FinalAnswerMarker) == text[q + |FinalAnswerMarker|..]
  {
    var m := FinalAnswerMarker;
    assert Contains(text, m);
    var r := LastPiece(text, m);
    var q0 := |text| - |r| - |m|;
    assert text[q] == 'F' by {
      assert text[q..q + |m|][0] == text[q];
    }
    assert forall k :: q0 < k < q0 + |m| ==> text[k] == text[q0..q0 + |m|][k - q0];
    MarkerStartsOnce();
    assert q == q0;
  }

  /** `F` is the marker's first character and appears nowhere else in it. */
  lemma MarkerStartsOnce()
    ensures FinalAnswerMarker[0] == 'F'
    ensures forall k :: 0 < k < |FinalAnswerMarker| ==> FinalAnswerMarker[k] != 'F'
  {
  }

  /**
   * Without a final answer the parse fails exactly when no `Action: ` is
   * followed by a newline or no `Action Input: ` occurs; once both are
   * there it never fails.
   */
  lemma {:induction false} ErrorIffMarkersMissing(text: string, decode: Decoder)
    ensures Parse(text, decode).ParseError? <==>
      !Contains(text, FinalAnswerMarker) && (!HasActionLine(text) || !Contains(text, ActionInputPrefix))
  {
    var _ := ExtractAction(text);
  }

  /**
   * The tool name is the stripped text between the first `Action: ` and the
   * newline that ends its line.
   */
  lemma {:induction false} ToolNameFromFirstActionLine(text: string, decode: Decoder, p: nat, n: nat)
    requires !Contains(text, FinalAnswerMarker) && Contains(text, ActionInputPrefix)
    requires IsFirstOccurrence(text, p, ActionPrefix)
    requires IsLineEnd(text, p + |ActionPrefix|, n) && n < |text|
    ensures Parse(text, decode).Action?
    ensures Parse(text, decode).tool == Strip(text[p + |ActionPrefix|..n])
  {
    LineEndUnique(text, p + |ActionPrefix|, n);
    ActionLineSearch(text, p);
    assert HasActionLine(text);
  }

  /**
   * The tool input text is the stripped rest of the line after the first
   * `Action Input: `, and the tool input is decoded from it.
   */
  lemma {:induction false} ToolInputFromFirstInputLine(text: string, decode: Decoder, q: nat, e: nat)
    requires !Contains(text, FinalAnswerMarker) && HasActionLine(text)
    requires IsFirstOccurrence(text, q, ActionInputPrefix)
    requires IsLineEnd(text, q + |ActionInputPrefix|, e)
    ensures '\n' !in Strip(text[q + |ActionInputPrefix|..e])
    ensures Parse(text, decode).Action?
    ensures Parse(text, decode).input == DecodeToolInput(Strip(text[q + |ActionInputPrefix|..e]), decode)
  {
    InputTextFromFirstInputLine(text, q, e);
  }

  /** `ExtractAction`'s input text is the stripped rest of the first `Action Input: ` line. */
  lemma InputTextFromFirstInputLine(text: string, q: nat, e: nat)
    requires HasActionLine(text)
    requires IsFirstOccurrence(text, q, ActionInputPrefix)
    requires IsLineEnd(text, q + |ActionInputPrefix|, e)
    ensures ExtractAction(text).Some?
    ensures ExtractAction(text).value.1 == Strip(text[q + |ActionInputPrefix|..e])
  {
    LineEndUnique(text, q + |ActionInputPrefix|, e);
    assert Contains(text, ActionInputPrefix);
    assert FindFirst(ActionInputPrefix, text).value == q;
    ActionInputSearch(text);
    ActionLineFound(text);
    var am := Search(ActionLine, text, 0);
    var im := Search(ActionInputLine, text, 0);
    assert im == Some(Found(q, Group(q + |ActionInputPrefix|, e)));
    assert ExtractAction(text) == Some((
      Strip(text[am.value.group.lo..am.value.group.hi]), Strip(text[q + |ActionInputPrefix|..e])));
  }

  /**
   * A well-formed request, `Action: <tool>` on one line and
   * `Action Input: <line>` on the next, is parsed into the stripped tool
   * name and the tool input decoded from the stripped input line, whatever
   * lines follow, as long as no final answer marker appears.
   */
  lemma {:induction false} WellFormedRequest(tool: string, line: string, rest: string, decode: Decoder)
    requires '\n' !in tool && '\n' !in line && (rest == [] || rest[0] == '\n')
    requires !Contains(ActionPrefix + tool, ActionInputPrefix)
    requires !Contains(ActionPrefix + tool + "\n" + ActionInputPrefix + line + rest, FinalAnswerMarker)
    ensures var text := ActionPrefix + tool + "\n" + ActionInputPrefix + line + rest;
      Parse(text, decode) == Action(Strip(tool), DecodeToolInput(Strip(line), decode), text)
  {
    var text := ActionPrefix + tool + "\n" + ActionInputPrefix + line + rest;
    var n := |ActionPrefix| + |tool|;
    var q := n + 1;
    var e := q + |ActionInputPrefix| + |line|;
    RequestLayout(tool, line, rest);
    assert Contains(text, ActionInputPrefix);
    ToolNameFromFirstActionLine(text, decode, 0, n);
    ToolInputFromFirstInputLine(text, decode, q, e);
  }

  /** Where the markers and line ends of a well-formed request lie. */
  lemma RequestLayout(tool: string, line: string, rest: string)
    requires '\n' !in tool && '\n' !in line && (rest == [] || rest[0] == '\n')
    requires !Contains(ActionPrefix + tool, ActionInputPrefix)
    ensures var text := ActionPrefix + tool + "\n" + ActionInputPrefix + line + rest;
      var n := |ActionPrefix| + |tool|;
      var q := n + 1;
      var e := q + |ActionInputPrefix| + |line|;
      && IsFirstOccurrence(text, 0, ActionPrefix) && IsLineEnd(text, |ActionPrefix|, n) && n < |text|
      && text[|ActionPrefix|..n] == tool && HasActionLine(text)
      && IsFirstOccurrence(text, q, ActionInputPrefix) && IsLineEnd(text, q + |ActionInputPrefix|, e)
      && text[q + |ActionInputPrefix|..e] == line
  {
    var text := ActionPrefix + tool + "\n" + ActionInputPrefix + line + rest;
    var n := |ActionPrefix| + |tool|;
    var q := n + 1;
    var e := q + |ActionInputPrefix| + |line|;
    assert text[..n] == ActionPrefix + tool;
    assert text[n] == '\n';
    assert text[|ActionPrefix|..n] == tool;
    assert text[q..q + |ActionInputPrefix|] == ActionInputPrefix;
    assert text[q + |ActionInputPrefix|..e] == line;
    assert OccursAt(text, 0, ActionPrefix);
    forall k | |ActionPrefix| <= k < n ensures text[k] != '\n' {
      assert text[k] == tool[k - |ActionPrefix|];
    }
    forall k | q + |ActionInputPrefix| <= k < e ensures text[k] != '\n' {
      assert text[k] == line[k - q - |ActionInputPrefix|];
    }
    assert e < |text| ==> text[e] == rest[0];
    NoOverlapBeforeInputLine(text, n, q);
    assert HasActionLine(text);
  }

  /** No `Action Input: ` starts before `q` when none lies in `text[..n]` and `text[n]` is a newline. */
  lemma NoOverlapBeforeInputLine(text: string, n: nat, q: nat)
    requires n < |text| && text[n] == '\n' && q == n + 1
    requires !Contains(text[..n], ActionInputPrefix)
    ensures forall q': nat :: q' < q ==> !OccursAt(text, q', ActionInputPrefix)
  {
    assert forall k :: 0 <= k < |ActionInputPrefix| ==> ActionInputPrefix[k] != '\n';
    forall q': nat | q' < q ensures !OccursAt(text, q', ActionInputPrefix) {
      var m := q' + |ActionInputPrefix|;
      if m <= n {
        assert text[..n][q'..m] == text[q'..m];
        assert !OccursAt(text[..n], q', ActionInputPrefix);
      } else {
        assert forall k :: q' <= k < m <= |text| ==> text[q'..m][k - q'] == text[k];
      }
    }
  }

  /**
   * The tool input comes from the input line alone: JSON continued on the
   * lines below does not reach the decoder, so two requests that differ
   * only after the input line get the same tool input.
   */
  lemma {:induction false} InputIgnoresLaterLines(tool: string, line: string, rest1: string, rest2: string, decode: Decoder)
    requires '\n' !in tool && '\n' !in line
    requires rest1 == [] || rest1[0] == '\n'
    requires rest2 == [] || rest2[0] == '\n'
    requires !Contains(ActionPrefix + tool, ActionInputPrefix)
    requires !Contains(ActionPrefix + tool + "\n" + ActionInputPrefix + line + rest1, FinalAnswerMarker)
    requires !Contains(ActionPrefix + tool + "\n" + ActionInputPrefix + line + rest2, FinalAnswerMarker)
    ensures Parse(ActionPrefix + tool + "\n" + ActionInputPrefix + line + rest1, decode).Action?
    ensures Parse(ActionPrefix + tool + "\n" + ActionInputPrefix + line + rest2, decode).Action?
    ensures Parse(ActionPrefix + tool + "\n" + ActionInputPrefix + line + rest1, decode).input
         == Parse(ActionPrefix + tool + "\n" + ActionInputPrefix + line + rest2, decode).input
  {
    WellFormedRequest(tool, line, rest1, decode);
    WellFormedRequest(tool, line, rest2, decode);
  }

  /** The line end of `IsLineEnd` is the one `LineEnd` computes. */
  lemma LineEndUnique(s: string, from: nat, n: nat)
    requires IsLineEnd(s, from, n)
    ensures LineEnd(s, from) == n
  {
  }

  /**
   * When JSON decoding fails and both numeric patterns match, the pair holds
   * what each pattern captured at its leftmost match.
   */
  lemma {:induction false} NumericRecoveryTakesFirstMatches(raw: string, decode: Decoder, ia: nat, ib: nat)
    requires decode(raw).None?
    requires MatchAt(NumericField('a'), raw, ia).Some?
    requires forall j: nat :: j < ia ==> MatchAt(NumericField('a'), raw, j).None?
    requires MatchAt(NumericField('b'), raw, ib).Some?
    requires forall j: nat :: j < ib ==> MatchAt(NumericField('b'), raw, j).None?
    ensures var ga := MatchAt(NumericField('a'), raw, ia).value;
      var gb := MatchAt(NumericField('b'), raw, ib).value;
      DecodeToolInput(raw, decode) == NumPair(raw[ga.lo..ga.hi], raw[gb.lo..gb.hi])
  {
    var fa := Search(NumericField('a'), raw, 0);
    var fb := Search(NumericField('b'), raw, 0);
    assert fa.Some? && fa.value.at == ia;
    assert fb.Some? && fb.value.at == ib;
  }
}
