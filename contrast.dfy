/**
  The two length parsers side by side: they agree on the three names and on
  a bare number, and differ in whether they strip the input and whether an
  `N words` phrase beats an earlier number.
*/
module ParserContrast {
  import opened PyStr
  import TextSum
  import YouTube
  import Sizing

  /** Only the text summariser strips before comparing with the names. */
  lemma StripDecidesName()
    ensures TextSum.ParseSummaryLength(" short") == 75
    ensures YouTube.ParseSummaryLength(" short") == 200
  {
    assert TrimLeft(" short") == "short" by {
      assert " short"[1..] == "short";
    }
    LowerStripUnchanged("short");
    YouTube.ShortNotStripped();
  }

  /** Only the text summariser prefers the number of an `N words` phrase. */
  lemma WordsPhraseDecidesNumber()
    ensures TextSum.ParseSummaryLength(TextSum.PartsAndWords) == 90
    ensures YouTube.ParseSummaryLength(TextSum.PartsAndWords) == 3
  {
    TextSum.WordsPatternWins();
    YouTube.FirstNumberWins();
  }

  /** On input that is already stripped and lowercase, the parsers agree on
      the names and whenever there is no `N words` phrase. */
  lemma AgreeOnPlainInput(s: string)
    requires Strip(s) == s && Lower(s) == s
    requires Sizing.IsLengthName(s) || TextSum.NoWordsMatch(s)
    ensures TextSum.ParseSummaryLength(s) == YouTube.ParseSummaryLength(s)
  {
    if !Sizing.IsLengthName(s) {
      match FirstDigit(s, 0)
      case Some(p) =>
        assert FirstDigitAt(s, p);
      case None =>
        assert NoDigit(s);
    }
  }
}
