/** The loader's classifier of item contents by file-name suffix. */
module Query {
  import opened JavaStrings

  /** `determineType`: lower-case the content, then test the suffixes in
      order: sound (.wav, .mid) is 2, image (.jpg, .gif) is 3, HTML (.html)
      is 4 and anything else is text, 1. */
  function DetermineType(content: string): (t: int)
    ensures 1 <= t <= 4
  {
    var lower := ToLower(content);
    if EndsWith(lower, ".wav") || EndsWith(lower, ".mid") then 2
    else if EndsWith(lower, ".jpg") || EndsWith(lower, ".gif") then 3
    else if EndsWith(lower, ".html") then 4
    else 1
  }

  /** Reference reading of "s ends with the lower-case suffix, in any letter
      case": each of the last |suffix| characters, lower-cased, is the
      matching character of the suffix. */
  predicate EndsWithIgnoringCase(s: string, suffix: string)
  {
    |suffix| <= |s| &&
    forall i :: 0 <= i < |suffix| ==> LowerChar(s[|s| - |suffix| + i]) == suffix[i]
  }

  /** Testing a lower-cased copy with endsWith is the case-blind suffix test. */
  lemma EndsWithLowerIffIgnoringCase(s: string, suffix: string)
    ensures EndsWith(ToLower(s), suffix) <==> EndsWithIgnoringCase(s, suffix)
  {
    var lower := ToLower(s);
    if |suffix| <= |s| {
      if EndsWithIgnoringCase(s, suffix) {
        assert lower[|s| - |suffix|..] == suffix by {
          forall i | 0 <= i < |suffix|
            ensures lower[|s| - |suffix|..][i] == suffix[i]
          {
            assert lower[|s| - |suffix| + i] == LowerChar(s[|s| - |suffix| + i]);
          }
        }
      }
      if EndsWith(lower, suffix) {
        forall i | 0 <= i < |suffix|
          ensures LowerChar(s[|s| - |suffix| + i]) == suffix[i]
        {
          assert lower[|s| - |suffix|..][i] == suffix[i];
        }
      }
    }
  }

  /** Two suffixes of the same length that differ cannot both end s. */
  lemma SameLengthSuffixesExclusive(s: string, a: string, b: string)
    requires |a| == |b| && a != b
    ensures !(EndsWithIgnoringCase(s, a) && EndsWithIgnoringCase(s, b))
  {
  }

  /** A content ending in ".html" does not end in a four-character suffix
      that starts with a dot: its fourth-last character lower-cases to 'h'. */
  lemma HtmlExcludesDotSuffixes(s: string, suffix: string)
    requires |suffix| == 4 && suffix[0] == '.'
    ensures !(EndsWithIgnoringCase(s, ".html") && EndsWithIgnoringCase(s, suffix))
  {
    if EndsWithIgnoringCase(s, ".html") {
      assert LowerChar(s[|s| - 4]) == ".html"[1];
    }
  }

  /** Each result of the classifier, characterised by the suffixes of the
      content in any letter case; the four cases are mutually exclusive, so
      the order of the tests only matters for which suffixes are tested. */
  lemma DetermineTypeCases(s: string)
    ensures DetermineType(s) == 2 <==>
      EndsWithIgnoringCase(s, ".wav") || EndsWithIgnoringCase(s, ".mid")
    ensures DetermineType(s) == 3 <==>
      EndsWithIgnoringCase(s, ".jpg") || EndsWithIgnoringCase(s, ".gif")
    ensures DetermineType(s) == 4 <==> EndsWithIgnoringCase(s, ".html")
    ensures DetermineType(s) == 1 <==>
      !EndsWithIgnoringCase(s, ".wav") && !EndsWithIgnoringCase(s, ".mid") &&
      !EndsWithIgnoringCase(s, ".jpg") && !EndsWithIgnoringCase(s, ".gif") &&
      !EndsWithIgnoringCase(s, ".html")
  {
    EndsWithLowerIffIgnoringCase(s, ".wav");
    EndsWithLowerIffIgnoringCase(s, ".mid");
    EndsWithLowerIffIgnoringCase(s, ".jpg");
    EndsWithLowerIffIgnoringCase(s, ".gif");
    EndsWithLowerIffIgnoringCase(s, ".html");
    SameLengthSuffixesExclusive(s, ".wav", ".jpg");
    SameLengthSuffixesExclusive(s, ".wav", ".gif");
    SameLengthSuffixesExclusive(s, ".mid", ".jpg");
    SameLengthSuffixesExclusive(s, ".mid", ".gif");
    HtmlExcludesDotSuffixes(s, ".wav");
    HtmlExcludesDotSuffixes(s, ".mid");
    HtmlExcludesDotSuffixes(s, ".jpg");
    HtmlExcludesDotSuffixes(s, ".gif");
  }

  /** Classification ignores letter case: lower-casing the content first
      changes nothing. */
  lemma DetermineTypeIgnoresCase(s: string)
    ensures DetermineType(ToLower(s)) == DetermineType(s)
  {
    ToLowerIdempotent(s);
  }

  /** A content whose i-th last-but-|suffix| character does not lower-case
      to the suffix's i-th character does not end in that suffix. */
  lemma MismatchAt(s: string, suffix: string, i: nat)
    requires i < |suffix| <= |s| && LowerChar(s[|s| - |suffix| + i]) != suffix[i]
    ensures !EndsWithIgnoringCase(s, suffix)
  {
  }

  /** A stem followed by a suffix written in any letter case ends in the
      lower-case suffix, ignoring case. */
  lemma EndsWithSuffixInAnyCase(stem: string, written: string, suffix: string)
    requires |written| == |suffix|
    requires forall i :: 0 <= i < |suffix| ==> LowerChar(written[i]) == suffix[i]
    ensures EndsWithIgnoringCase(stem + written, suffix)
  {
    var s := stem + written;
    forall i | 0 <= i < |suffix|
      ensures LowerChar(s[|s| - |suffix| + i]) == suffix[i]
    {
      assert s[|s| - |suffix| + i] == written[i];
    }
  }

  /** An upper-case sound extension is recognised, whatever precedes it ... */
  lemma DetermineTypeUpperCaseSound(stem: string)
    ensures DetermineType(stem + ".WAV") == 2
  {
    EndsWithSuffixInAnyCase(stem, ".WAV", ".wav");
    DetermineTypeCases(stem + ".WAV");
  }

  /** ... so is an upper-case HTML extension ... */
  lemma DetermineTypeUpperCaseHtml(stem: string)
    ensures DetermineType(stem + ".HTML") == 4
  {
    EndsWithSuffixInAnyCase(stem, ".HTML", ".html");
    DetermineTypeCases(stem + ".HTML");
  }

  /** ... and ".htm" is not HTML: it falls through to text. */
  lemma DetermineTypeHtmIsText(stem: string)
    ensures DetermineType(stem + ".htm") == 1
  {
    var s := stem + ".htm";
    assert s[|s| - 3] == 'h' && s[|s| - 1] == 'm';
    MismatchAt(s, ".wav", 1);
    MismatchAt(s, ".mid", 1);
    MismatchAt(s, ".jpg", 1);
    MismatchAt(s, ".gif", 1);
    if 5 <= |s| {
      MismatchAt(s, ".html", 4);
    }
    DetermineTypeCases(s);
  }
}
