/**
 * Worked inputs for the output parser, each for every decoder that behaves
 * as the lemma's requires say.
 */
module ParserExamples {
  import opened Wrappers
  import opened Text
  import opened Json
  import opened Patterns
  import opened OutputParser

  /**
   * A response that both asks for a tool and gives a final answer is a final
   * answer: the stripped text after the marker.
   */
  lemma FinalAnswerWinsOverAction(before: string, after: string, decode: Decoder)
    requires before == "Action: somar\nAction Input: {\"a\": 42, \"b\": 28}\n"
    requires after == " 70 "
    ensures var text := before + FinalAnswerMarker + after;
      Parse(text, decode) == Finish("70", text)
  {
    assert Strip(after) == "70" by { StripUnique(after, 1, 3); }
    MissingCharacter(after, FinalAnswerMarker, 0);
    FinishTakesTextAfterMarker(before, after, decode);
  }

  /** A tool request without an `Action Input:` line is rejected. */
  lemma MissingInputIsError(text: string, decode: Decoder)
    requires text == "Thought: we add.\nAction: somar\n"
    ensures Parse(text, decode).ParseError?
  {
    ExampleLacksMarkers(text);
    ErrorIffMarkersMissing(text, decode);
  }

  /** The example text has neither a final answer nor an input line. */
  lemma ExampleLacksMarkers(text: string)
    requires text == "Thought: we add.\nAction: somar\n"
    ensures !Contains(text, FinalAnswerMarker) && !Contains(text, ActionInputPrefix)
  {
    assert !Contains(text, FinalAnswerMarker) by {
      assert 'F' !in text;
      MissingCharacter(text, FinalAnswerMarker, 0);
    }
    assert !Contains(text, ActionInputPrefix) by {
      assert 'I' !in text;
      MissingCharacter(text, ActionInputPrefix, 7);
    }
  }

  /**
   * Input text that is not JSON (a trailing comma) but holds `"a": 2` and
   * `"b": 5` becomes the pair of those decimals.
   */
  lemma NumericRecoveryExample(raw: string, decode: Decoder)
    requires raw == "{\"a\": 2, \"b\": 5,}"
    requires decode(raw).None?
    ensures DecodeToolInput(raw, decode) == NumPair("2", "5")
  {
    assert raw[6..7] == "2" && raw[14..15] == "5";
    ExampleFieldA(raw);
    ExampleFieldB(raw);
    NumericRecoveryTakesFirstMatches(raw, decode, 1, 9);
  }

  /** Where the `"a"` pattern first matches in the example text, and what it captures. */
  lemma ExampleFieldA(raw: string)
    requires raw == "{\"a\": 2, \"b\": 5,}"
    ensures MatchAt(NumericField('a'), raw, 1) == Some(Group(6, 7))
    ensures forall j: nat :: j < 1 ==> MatchAt(NumericField('a'), raw, j).None?
  {
    assert OccursAt(raw, 1, FieldHead('a'));
    assert SkipSpace(raw, 6) == 6 && SkipSpace(raw, 5) == 6;
    assert SkipDigits(raw, 7) == 7 && SkipDigits(raw, 6) == 7;
    assert raw[0] != '"';
  }

  /** Where the `"b"` pattern first matches in the example text, and what it captures. */
  lemma ExampleFieldB(raw: string)
    requires raw == "{\"a\": 2, \"b\": 5,}"
    ensures MatchAt(NumericField('b'), raw, 9) == Some(Group(14, 15))
    ensures forall j: nat :: j < 9 ==> MatchAt(NumericField('b'), raw, j).None?
  {
    assert OccursAt(raw, 9, FieldHead('b'));
    assert SkipSpace(raw, 14) == 14 && SkipSpace(raw, 13) == 14;
    assert SkipDigits(raw, 15) == 15 && SkipDigits(raw, 14) == 15;
    assert raw[..10] == "{\"a\": 2, \"";
    FieldAbsentBefore(raw, 'b', 9);
  }
}
