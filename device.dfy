/** The device classifier that runs before the redirect handler
    (middleware/detectDeviceType.js). */
module DeviceDetect {
  import opened Wrappers

  datatype DeviceType = Mobile | Tablet | Desktop

  /** ASCII lower-casing. A case-insensitive regular expression without the
      unicode flag never folds a non-ASCII character onto an ASCII one, so for
      the ASCII words searched here ASCII folding is the whole story. */
  function Lower(c: char): char {
    if 'A' <= c <= 'Z' then (c as int + 32) as char else c
  }

  /** `word` occurs in `text` at position `i`, ignoring letter case. */
  ghost predicate MatchesAt(text: string, word: string, i: nat) {
    i + |word| <= |text| && forall j :: 0 <= j < |word| ==> Lower(text[i + j]) == Lower(word[j])
  }

  /** The meaning of `/word/i.test(text)`: some position matches. */
  ghost predicate Mentions(text: string, word: string) {
    exists i: nat :: MatchesAt(text, word, i)
  }

  /** `text` starts with `word`, ignoring letter case. */
  function StartsWith(text: string, word: string): bool {
    |word| == 0 || (|text| > 0 && Lower(text[0]) == Lower(word[0]) && StartsWith(text[1..], word[1..]))
  }

  /** The regular-expression search, scanning from the left. */
  function Search(text: string, word: string): bool {
    StartsWith(text, word) || (|text| > 0 && Search(text[1..], word))
  }

  lemma {:induction false} StartsWithCorrect(text: string, word: string)
    ensures StartsWith(text, word) <==> MatchesAt(text, word, 0)
  {
    if |word| > 0 && |text| > 0 {
      StartsWithCorrect(text[1..], word[1..]);
      if MatchesAt(text[1..], word[1..], 0) && Lower(text[0]) == Lower(word[0]) {
        forall j | 0 <= j < |word| ensures Lower(text[j]) == Lower(word[j]) {
          if j > 0 {
            assert text[1..][j - 1] == text[j] && word[1..][j - 1] == word[j];
          }
        }
      }
      if MatchesAt(text, word, 0) {
        forall j | 0 <= j < |word| - 1 ensures Lower(text[1..][j]) == Lower(word[1..][j]) {
          assert Lower(text[j + 1]) == Lower(word[j + 1]);
        }
      }
    }
  }

  lemma MatchesAtShift(text: string, word: string, i: nat)
    requires |text| > 0
    ensures MatchesAt(text, word, i + 1) <==> MatchesAt(text[1..], word, i)
  {
  }

  lemma {:induction false} SearchCorrect(text: string, word: string)
    ensures Search(text, word) <==> Mentions(text, word)
  {
    StartsWithCorrect(text, word);
    if |text| > 0 {
      SearchCorrect(text[1..], word);
      if Mentions(text[1..], word) {
        var i: nat :| MatchesAt(text[1..], word, i);
        MatchesAtShift(text, word, i);
      }
      if Mentions(text, word) {
        var i: nat :| MatchesAt(text, word, i);
        if i > 0 {
          MatchesAtShift(text, word, i - 1);
        }
      }
    } else if Mentions(text, word) {
      var i: nat :| MatchesAt(text, word, i);
      assert i == 0 && |word| == 0;
    }
  }

  /** What the regular expression is tested against: an absent header is
      converted to the string "undefined". */
  function HeaderText(userAgent: Option<string>): string {
    match userAgent
    case None => "undefined"
    case Some(s) => s
  }

  /** The classification: "mobile" is tested first, then "tablet", and
      everything else is a desktop. */
  function Classify(userAgent: Option<string>): (d: DeviceType)
    ensures d == Mobile <==> Mentions(HeaderText(userAgent), "mobile")
    ensures d == Tablet <==> !Mentions(HeaderText(userAgent), "mobile") && Mentions(HeaderText(userAgent), "tablet")
    ensures d == Desktop <==> !Mentions(HeaderText(userAgent), "mobile") && !Mentions(HeaderText(userAgent), "tablet")
  {
    var text := HeaderText(userAgent);
    SearchCorrect(text, "mobile");
    SearchCorrect(text, "tablet");
    if Search(text, "mobile") then Mobile
    else if Search(text, "tablet") then Tablet
    else Desktop
  }

  /** No occurrence of a word is possible in a text lacking its first letter. */
  lemma {:induction false} MissingFirstLetter(text: string, word: string)
    requires |word| > 0
    requires forall k :: 0 <= k < |text| ==> Lower(text[k]) != Lower(word[0])
    ensures !Mentions(text, word)
  {
    forall i: nat ensures !MatchesAt(text, word, i) {
      if i + |word| <= |text| {
        assert Lower(text[i + 0]) != Lower(word[0]);
      }
    }
  }

  /** An absent User-Agent header is classified as a desktop. */
  lemma AbsentHeaderIsDesktop()
    ensures Classify(None) == Desktop
  {
    var text := "undefined";
    forall k | 0 <= k < |text| ensures Lower(text[k]) != 'm' && Lower(text[k]) != 't' {
      assert text[k] in "undefined";
    }
    MissingFirstLetter(text, "mobile");
    MissingFirstLetter(text, "tablet");
  }

  /** A user agent naming both words is a mobile. */
  lemma MobileBeatsTablet(userAgent: Option<string>)
    requires Mentions(HeaderText(userAgent), "mobile") && Mentions(HeaderText(userAgent), "tablet")
    ensures Classify(userAgent) == Mobile
  {
  }

  /** "Mozilla/5.0 (Mobile)" is a mobile, the capital letter notwithstanding. */
  lemma CapitalMobileIsMobile()
    ensures Classify(Some("Mozilla/5.0 (Mobile)")) == Mobile
  {
    var text := "Mozilla/5.0 (Mobile)";
    assert MatchesAt(text, "mobile", 13) by {
      assert text[13..19] == "Mobile";
      forall j | 0 <= j < 6 ensures Lower(text[13 + j]) == Lower("mobile"[j]) {
        assert text[13 + j] == text[13..19][j];
      }
    }
  }
}
