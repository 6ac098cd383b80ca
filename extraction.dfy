/**
 * `extractPhoneData` of the mail-scanning script (google-apps-script.js):
 * two independent searches of the e-mail body with `String.prototype.match`,
 * one for `/CountryCode:\s*(\+\d+)/i` and one for `/Phone:\s*(\d+)/i`.
 * Each search is modelled as the regular-expression engine runs it: try the
 * whole pattern at every position from the left, and return the first match.
 */
module Extraction {
  import opened Wrappers
  import JsText

  /**
   * A regular expression `/<prefix>\s*(<plus>\d+)/i`, where `plus` says whether
   * the captured group begins with a literal `+`.
   */
  datatype Pattern = Pattern(prefix: string, plus: bool)

  /** `/CountryCode:\s*(\+\d+)/i` */
  const CountryCodePattern: Pattern := Pattern("CountryCode:", true)
  /** `/Phone:\s*(\d+)/i` */
  const PhonePattern: Pattern := Pattern("Phone:", false)

  /** The result object of `extractPhoneData`; `None` stands for `null`. */
  datatype PhoneData = PhoneData(countryCode: Option<string>, phoneNumber: Option<string>)

  /**
   * The case-folding of an ignore-case, non-unicode regular expression, on
   * ASCII characters: upper-casing. Both labels are ASCII, and ECMAScript never
   * folds a non-ASCII character onto an ASCII one, so this decides label
   * matching exactly.
   */
  function Canonicalize(c: char): char {
    JsText.UpperChar(c)
  }

  /** Characters `j..` of `prefix` match `s` from index `i + j` on, ignoring case. */
  predicate LabelAgrees(s: string, prefix: string, i: nat, j: nat)
    requires i + |prefix| <= |s|
    decreases |prefix| - j
  {
    j >= |prefix| || (Canonicalize(s[i + j]) == Canonicalize(prefix[j]) && LabelAgrees(s, prefix, i, j + 1))
  }

  /** The label matches at index `i`, ignoring case. */
  predicate LabelAt(s: string, prefix: string, i: nat) {
    i + |prefix| <= |s| && LabelAgrees(s, prefix, i, 0)
  }

  /** The end of the longest run of digits starting at `j`: greedy `\d*`. */
  function SkipDigits(s: string, j: nat): (r: nat)
    requires j <= |s|
    ensures j <= r <= |s|
    ensures forall k :: j <= k < r ==> JsText.IsDigit(s[k])
    ensures r == |s| || !JsText.IsDigit(s[r])
    decreases |s| - j
  {
    if j < |s| && JsText.IsDigit(s[j]) then SkipDigits(s, j + 1) else j
  }

  /** What the captured group of the pattern may be: `\+\d+` or `\d+`. */
  predicate IsCapture(p: Pattern, c: string) {
    if p.plus then |c| >= 2 && c[0] == '+' && JsText.AllDigits(c[1..])
    else |c| >= 1 && JsText.AllDigits(c)
  }

  /**
   * The regular-expression engine tried at index `i`: the prefix, then as much
   * whitespace as there is, then the group's `+` if the pattern has one, then
   * as many digits as there are; the captured group if at least one digit follows.
   */
  function MatchAt(s: string, p: Pattern, i: nat): (r: Option<string>)
    requires i <= |s|
    ensures r.Some? ==> IsCapture(p, r.value)
  {
    if !LabelAt(s, p.prefix, i) then None
    else
      var w := JsText.SkipWhitespace(s, i + |p.prefix|);
      if p.plus && !(w < |s| && s[w] == '+') then None
      else
        var d := if p.plus then w + 1 else w;
        var e := SkipDigits(s, d);
        if e == d then None
        else
          assert s[w..e][1..] == s[w + 1..e];
          Some(s[w..e])
  }

  /**
   * The declarative meaning of the pattern: it matches at `i` with the group
   * captured as `s[w..e]`, for some way of splitting the text after the prefix.
   */
  ghost predicate MatchesWith(s: string, p: Pattern, i: nat, w: nat, e: nat) {
    && i + |p.prefix| <= w <= e <= |s|
    && LabelAt(s, p.prefix, i)
    && JsText.AllWhitespace(s[i + |p.prefix|..w])
    && IsCapture(p, s[w..e])
  }

  /** The pattern matches at index `i` in some way. */
  ghost predicate MatchesAt(s: string, p: Pattern, i: nat) {
    exists w: nat, e: nat :: MatchesWith(s, p, i, w, e)
  }

  /** A successful scan is a match of the pattern, whose digit run is maximal. */
  lemma MatchAtSound(s: string, p: Pattern, i: nat)
    requires i <= |s|
    requires MatchAt(s, p, i).Some?
    ensures exists w: nat, e: nat ::
      MatchesWith(s, p, i, w, e) && MatchAt(s, p, i).value == s[w..e] && (e == |s| || !JsText.IsDigit(s[e]))
  {
    var l := i + |p.prefix|;
    var w := JsText.SkipWhitespace(s, l);
    assert JsText.AllWhitespace(s[l..w]);
    var d := if p.plus then w + 1 else w;
    var e := SkipDigits(s, d);
    assert JsText.AllDigits(s[d..e]);
    assert s[w..e][1..] == s[w + 1..e];
    assert MatchesWith(s, p, i, w, e);
  }

  /**
   * Any match of the pattern makes the scan succeed; the whitespace run is
   * then forced, and the scan captures the match that has a maximal digit run.
   */
  lemma MatchAtComplete(s: string, p: Pattern, i: nat, w: nat, e: nat)
    requires MatchesWith(s, p, i, w, e)
    ensures MatchAt(s, p, i).Some?
    ensures e == |s| || !JsText.IsDigit(s[e]) ==> MatchAt(s, p, i) == Some(s[w..e])
  {
    var l := i + |p.prefix|;
    assert s[w..e][0] == s[w];
    assert !JsText.IsWhitespace(s[w]);
    forall k | l <= k < w
      ensures JsText.IsWhitespace(s[k])
    {
      assert s[l..w][k - l] == s[k];
    }
    assert JsText.SkipWhitespace(s, l) == w;
    var d := if p.plus then w + 1 else w;
    if p.plus {
      assert s[w..e][1] == s[w + 1];
    }
    forall k | d <= k < e
      ensures JsText.IsDigit(s[k])
    {
      assert s[w..e][k - w] == s[k];
    }
    assert SkipDigits(s, d) >= e > d;
  }

  /**
   * The scanner at `i` succeeds exactly when the pattern matches there, and it
   * captures the match whose digit run is maximal, as a greedy `\d+` does.
   */
  lemma MatchAtCorrect(s: string, p: Pattern, i: nat)
    requires i <= |s|
    ensures MatchAt(s, p, i).Some? <==> MatchesAt(s, p, i)
    ensures MatchAt(s, p, i).Some? ==>
      exists w: nat, e: nat :: MatchesWith(s, p, i, w, e) && MatchAt(s, p, i).value == s[w..e]
        && (e == |s| || !JsText.IsDigit(s[e]))
    ensures forall w: nat, e: nat :: MatchesWith(s, p, i, w, e) && (e == |s| || !JsText.IsDigit(s[e])) ==>
      MatchAt(s, p, i) == Some(s[w..e])
  {
    if MatchAt(s, p, i).Some? {
      MatchAtSound(s, p, i);
    }
    forall w: nat, e: nat | MatchesWith(s, p, i, w, e)
      ensures MatchAt(s, p, i).Some?
      ensures e == |s| || !JsText.IsDigit(s[e]) ==> MatchAt(s, p, i) == Some(s[w..e])
    {
      MatchAtComplete(s, p, i, w, e);
    }
  }

  /** The leftmost index, from `i` on, at which the scanner succeeds. */
  function Search(s: string, p: Pattern, i: nat): (r: Option<nat>)
    requires i <= |s|
    ensures r.Some? ==> i <= r.value <= |s| && MatchAt(s, p, r.value).Some?
    ensures r.Some? ==> forall k :: i <= k < r.value ==> MatchAt(s, p, k).None?
    ensures r.None? ==> forall k :: i <= k <= |s| ==> MatchAt(s, p, k).None?
    decreases |s| - i
  {
    if MatchAt(s, p, i).Some? then Some(i)
    else if i == |s| then None
    else Search(s, p, i + 1)
  }

  /** `s.match(re)`, keeping the captured group: `match[1]`, or `None` when there is no match. */
  function Extract(s: string, p: Pattern): (r: Option<string>)
    ensures r.Some? ==> IsCapture(p, r.value)
  {
    match Search(s, p, 0)
    case None => None
    case Some(i) => MatchAt(s, p, i)
  }

  /**
   * The search finds nothing exactly when the pattern matches at no index, and
   * otherwise returns the group of the match at the leftmost index where the
   * whole pattern matches, with its digit run maximal.
   */
  lemma ExtractIsLeftmostMatch(s: string, p: Pattern)
    ensures Extract(s, p).None? <==> forall i :: 0 <= i <= |s| ==> !MatchesAt(s, p, i)
    ensures Extract(s, p).Some? ==>
      exists i: nat, w: nat, e: nat ::
        && MatchesWith(s, p, i, w, e)
        && (forall k :: 0 <= k < i ==> !MatchesAt(s, p, k))
        && Extract(s, p).value == s[w..e]
        && (e == |s| || !JsText.IsDigit(s[e]))
  {
    forall k | 0 <= k <= |s| {
      MatchAtCorrect(s, p, k);
    }
  }

  /**
   * Conversely, the group of a leftmost match whose digit run is maximal is
   * exactly what the search returns.
   */
  lemma LeftmostMatchExtracted(s: string, p: Pattern, i: nat, w: nat, e: nat)
    requires MatchesWith(s, p, i, w, e)
    requires forall k :: 0 <= k < i ==> !MatchesAt(s, p, k)
    requires e == |s| || !JsText.IsDigit(s[e])
    ensures Extract(s, p) == Some(s[w..e])
  {
    MatchAtComplete(s, p, i, w, e);
    forall k | 0 <= k < i {
      MatchAtCorrect(s, p, k);
    }
    assert Search(s, p, 0) == Some(i);
  }

  /** `extractPhoneData`: the two searches, each on the whole body, independent of each other. */
  function ExtractPhoneData(body: string): (r: PhoneData)
    ensures r.countryCode.Some? ==>
      |r.countryCode.value| >= 2 && r.countryCode.value[0] == '+' && JsText.AllDigits(r.countryCode.value[1..])
    ensures r.phoneNumber.Some? ==> |r.phoneNumber.value| >= 1 && JsText.AllDigits(r.phoneNumber.value)
  {
    PhoneData(Extract(body, CountryCodePattern), Extract(body, PhonePattern))
  }

  /** A body too short to hold either label yields neither field. */
  lemma ShortBodyYieldsNothing(body: string)
    requires |body| < |PhonePattern.prefix|
    ensures ExtractPhoneData(body) == PhoneData(None, None)
  {
    ExtractIsLeftmostMatch(body, CountryCodePattern);
    ExtractIsLeftmostMatch(body, PhonePattern);
  }

  /** Label matching compares every remaining character after case folding. */
  lemma {:induction false} LabelAgreesIff(s: string, prefix: string, i: nat, j: nat)
    requires i + |prefix| <= |s|
    ensures LabelAgrees(s, prefix, i, j) <==>
      forall m :: j <= m < |prefix| ==> Canonicalize(s[i + m]) == Canonicalize(prefix[m])
    decreases |prefix| - j
  {
    if j < |prefix| {
      LabelAgreesIff(s, prefix, i, j + 1);
    }
  }

  /** No character of `t` folds to `x`. */
  predicate Avoids(t: string, x: char) {
    forall j :: 0 <= j < |t| ==> Canonicalize(t[j]) != x
  }

  /** Avoiding a character is kept by concatenation. */
  lemma AvoidsConcat(a: string, b: string, x: char)
    requires Avoids(a, x) && Avoids(b, x)
    ensures Avoids(a + b, x)
  {
    forall j | 0 <= j < |a + b|
      ensures Canonicalize((a + b)[j]) != x
    {
      if j >= |a| {
        assert (a + b)[j] == b[j - |a|];
      }
    }
  }

  /** Whether the label matches at `i` depends only on the characters it spans. */
  lemma LabelAtSlice(s: string, prefix: string, i: nat)
    requires i + |prefix| <= |s|
    ensures LabelAt(s, prefix, i) <==> LabelAt(s[i..i + |prefix|], prefix, 0)
  {
    var t := s[i..i + |prefix|];
    forall m | 0 <= m < |prefix|
      ensures t[m] == s[i + m]
    {
    }
    LabelAgreesIff(s, prefix, i, 0);
    LabelAgreesIff(t, prefix, 0, 0);
  }

  /** No label can start where the `m`-th character of the label is not found. */
  lemma NoLabelWhere(s: string, prefix: string, m: nat, lo: nat, hi: nat)
    requires m < |prefix| && lo <= hi && hi + m <= |s|
    requires Avoids(s[lo + m..hi + m], Canonicalize(prefix[m]))
    ensures forall k: nat :: lo <= k < hi ==> !LabelAt(s, prefix, k)
  {
    forall k: nat | lo <= k < hi
      ensures !LabelAt(s, prefix, k)
    {
      if k + |prefix| <= |s| {
        LabelAgreesIff(s, prefix, k, 0);
        assert s[lo + m..hi + m][k - lo] == s[k + m];
      }
    }
  }

  /** The label matches wherever the text upper-cases to the upper-cased label. */
  lemma LabelFromUpper(s: string, prefix: string, i: nat)
    requires i + |prefix| <= |s|
    requires JsText.Upper(s[i..i + |prefix|]) == JsText.Upper(prefix)
    ensures LabelAt(s, prefix, i)
  {
    forall m | 0 <= m < |prefix|
      ensures Canonicalize(s[i + m]) == Canonicalize(prefix[m])
    {
      assert JsText.Upper(s[i..i + |prefix|])[m] == JsText.Upper(prefix)[m];
    }
    LabelAgreesIff(s, prefix, i, 0);
  }

  /** A slice of the middle part of a concatenation. */
  lemma MiddleSlice(pre: string, line: string, rest: string, a: nat, b: nat)
    requires a <= b <= |line|
    ensures (pre + line + rest)[|pre| + a..|pre| + b] == line[a..b]
  {
    var s := pre + line + rest;
    assert s[|pre|..|pre| + |line|] == line;
    assert s[|pre| + a..|pre| + b] == s[|pre|..|pre| + |line|][a..b];
  }

  /** A match inside `line` is a match, shifted by `|pre|`, inside `pre + line + rest`. */
  lemma MatchesWithShifted(pre: string, line: string, rest: string, p: Pattern, k: nat, w: nat, e: nat)
    requires MatchesWith(line, p, k, w, e)
    ensures MatchesWith(pre + line + rest, p, |pre| + k, |pre| + w, |pre| + e)
  {
    var s := pre + line + rest;
    var o := |pre|;
    var L := |p.prefix|;
    MiddleSlice(pre, line, rest, k, k + L);
    MiddleSlice(pre, line, rest, k + L, w);
    MiddleSlice(pre, line, rest, w, e);
    LabelAtSlice(line, p.prefix, k);
    LabelAtSlice(s, p.prefix, o + k);
  }

  /** Nothing before `line` can hold a label when the label's `m`-th character is absent there. */
  lemma NoLabelBeforeLine(pre: string, line: string, rest: string, x: string, m: nat, k: nat)
    requires m < |x|
    requires Avoids(pre, Canonicalize(x[m]))
    requires k + m <= |line| && Avoids(line[..k + m], Canonicalize(x[m]))
    ensures forall i: nat :: 0 <= i < |pre| + k ==> !LabelAt(pre + line + rest, x, i)
  {
    var s := pre + line + rest;
    var o := |pre|;
    var t := s[m..o + k + m];
    forall j | 0 <= j < |t|
      ensures Canonicalize(t[j]) != Canonicalize(x[m])
    {
      if m + j < o {
        assert t[j] == pre[m + j];
      } else {
        assert t[j] == line[m + j - o];
        assert line[..k + m][m + j - o] == line[m + j - o];
      }
    }
    NoLabelWhere(s, x, m, 0, o + k);
  }

  /**
   * A match inside `line` is the one extracted from `pre + line + rest` when
   * nothing before it holds the `m`-th character of the label.
   */
  lemma ExtractFromLine(pre: string, line: string, rest: string, p: Pattern, m: nat, k: nat, w: nat, e: nat)
    requires m < |p.prefix|
    requires Avoids(pre, Canonicalize(p.prefix[m]))
    requires k + m <= |line| && Avoids(line[..k + m], Canonicalize(p.prefix[m]))
    requires MatchesWith(line, p, k, w, e)
    requires e < |line| && !JsText.IsDigit(line[e])
    ensures Extract(pre + line + rest, p) == Some(line[w..e])
  {
    var s := pre + line + rest;
    var o := |pre|;
    MatchesWithShifted(pre, line, rest, p, k, w, e);
    NoLabelBeforeLine(pre, line, rest, p.prefix, m, k);
    assert s[o + e] == line[e];
    assert s[o + w..o + e] == line[w..e];
    LeftmostMatchExtracted(s, p, o + k, o + w, o + e);
  }

  /** The e-mail of `testExtraction`, line by line. */
  const TestEmailOpening: string := "\n    Dear Customer,\n    \n"
  const TestEmailConfirmation: string := "    Your booking has been confirmed.\n    \n"
  const TestEmailCountryCode: string := "    CountryCode: +91\n"
  const TestEmailPhone: string := "    Phone: 8475043504\n"
  const TestEmailClosing: string := "    \n    Thank you for choosing our service.\n  "
  const TestEmail: string :=
    TestEmailOpening + TestEmailConfirmation + TestEmailCountryCode + TestEmailPhone + TestEmailClosing

  /** The country-code line of the sample e-mail matches at its label. */
  lemma CountryCodeLineMatches()
    ensures MatchesWith(TestEmailCountryCode, CountryCodePattern, 4, 17, 20)
    ensures TestEmailCountryCode[17..20] == "+91" && TestEmailCountryCode[20] == '\n'
  {
    var line := "    CountryCode: +91\n";
    assert line[4..16] == "CountryCode:";
    LabelFromUpper(line, "CountryCode:", 4);
    assert line[16..17] == " ";
    assert line[17..20] == "+91";
  }

  /** The phone line of the sample e-mail matches at its label. */
  lemma PhoneLineMatches()
    ensures MatchesWith(TestEmailPhone, PhonePattern, 4, 11, 21)
    ensures TestEmailPhone[11..21] == "8475043504" && TestEmailPhone[21] == '\n'
  {
    var line := "    Phone: 8475043504\n";
    assert line[4..10] == "Phone:";
    LabelFromUpper(line, "Phone:", 4);
    assert line[10..11] == " ";
    assert line[11..21] == "8475043504";
  }

  lemma OpeningFacts()
    ensures Avoids(TestEmailOpening, ':') && Avoids(TestEmailOpening, 'P')
  {}

  lemma ConfirmationLacksColon()
    ensures Avoids(TestEmailConfirmation, ':')
  {}

  lemma ConfirmationLacksP()
    ensures Avoids(TestEmailConfirmation, 'P')
  {}

  lemma CountryCodeLineFacts()
    ensures Avoids(TestEmailCountryCode[..15], ':') && Avoids(TestEmailCountryCode, 'P')
  {
    assert TestEmailCountryCode[..15] == "    CountryCode";
    assert Avoids("    CountryCode", ':');
  }

  lemma PhoneLineFacts()
    ensures Avoids(TestEmailPhone[..4], 'P')
  {
    assert TestEmailPhone[..4] == "    ";
    assert Avoids("    ", 'P');
  }

  /** No colon comes before the country-code label, so the first label is the match. */
  lemma TestEmailCountryCodeExtracted()
    ensures Extract(TestEmail, CountryCodePattern) == Some("+91")
  {
    var a, c, r := TestEmailOpening + TestEmailConfirmation, TestEmailCountryCode, TestEmailPhone + TestEmailClosing;
    assert TestEmail == a + c + r;
    OpeningFacts();
    ConfirmationLacksColon();
    AvoidsConcat(TestEmailOpening, TestEmailConfirmation, ':');
    CountryCodeLineFacts();
    CountryCodeLineMatches();
    ExtractFromLine(a, c, r, CountryCodePattern, 11, 4, 17, 20);
  }

  /** No `p` comes before the phone label, so the first label is the match. */
  lemma TestEmailPhoneExtracted()
    ensures Extract(TestEmail, PhonePattern) == Some("8475043504")
  {
    var a, c, r := TestEmailOpening + TestEmailConfirmation + TestEmailCountryCode, TestEmailPhone, TestEmailClosing;
    assert TestEmail == a + c + r;
    OpeningFacts();
    ConfirmationLacksP();
    CountryCodeLineFacts();
    AvoidsConcat(TestEmailOpening, TestEmailConfirmation, 'P');
    AvoidsConcat(TestEmailOpening + TestEmailConfirmation, TestEmailCountryCode, 'P');
    PhoneLineFacts();
    PhoneLineMatches();
    ExtractFromLine(a, c, r, PhonePattern, 0, 4, 11, 21);
  }

  /** `testExtraction`: the sample e-mail yields `+91` and `8475043504`. */
  lemma TestExtraction()
    ensures ExtractPhoneData(TestEmail) == PhoneData(Some("+91"), Some("8475043504"))
  {
    TestEmailCountryCodeExtracted();
    TestEmailPhoneExtracted();
  }

  /** In `Phone: x, Phone: 12` only a letter follows the first label, and the second is followed by digits. */
  lemma LaterLabelFacts()
    ensures MatchAt("Phone: x, Phone: 12", PhonePattern, 0) == None
    ensures Avoids("Phone: x, Phone: 12"[6..15], ':')
  {
    var s := "Phone: x, Phone: 12";
    assert JsText.SkipWhitespace(s, 6) == 7;
    assert SkipDigits(s, 7) == 7;
    assert s[6..15] == " x, Phone";
  }

  lemma SecondLabelMatches()
    ensures MatchesWith("Phone: x, Phone: 12", PhonePattern, 10, 17, 19)
    ensures "Phone: x, Phone: 12"[17..19] == "12"
  {
    var s := "Phone: x, Phone: 12";
    assert s[10..16] == "Phone:";
    LabelFromUpper(s, "Phone:", 10);
    assert s[16..17] == " ";
    assert s[17..19] == "12";
  }

  /** The first label is skipped when no digits follow it: the whole pattern must match. */
  lemma LaterLabelExample()
    ensures Extract("Phone: x, Phone: 12", PhonePattern) == Some("12")
  {
    var s := "Phone: x, Phone: 12";
    LaterLabelFacts();
    MatchAtCorrect(s, PhonePattern, 0);
    NoLabelWhere(s, "Phone:", 5, 1, 10);
    SecondLabelMatches();
    LeftmostMatchExtracted(s, PhonePattern, 10, 17, 19);
  }

  lemma UnanchoredFacts()
    ensures Avoids("Telephone: 5"[5..9], ':')
    ensures MatchesWith("Telephone: 5", PhonePattern, 4, 11, 12)
    ensures "Telephone: 5"[11..12] == "5"
  {
    var s := "Telephone: 5";
    assert s[5..9] == "hone";
    assert s[4..10] == "phone:";
    assert JsText.Upper("phone:") == JsText.Upper("Phone:");
    LabelFromUpper(s, "Phone:", 4);
    assert s[10..11] == " ";
    assert s[11..12] == "5";
  }

  /** The pattern is not anchored, and the label matches in any case. */
  lemma UnanchoredExample()
    ensures Extract("Telephone: 5", PhonePattern) == Some("5")
  {
    var s := "Telephone: 5";
    UnanchoredFacts();
    NoLabelWhere(s, "Phone:", 5, 0, 4);
    LeftmostMatchExtracted(s, PhonePattern, 4, 11, 12);
  }

  lemma PlusRequiredFacts()
    ensures MatchAt("CountryCode: 91", CountryCodePattern, 0) == None
    ensures Avoids("CountryCode: 91"[12..15], ':')
    ensures Avoids("CountryCode: 91"[0..10], 'P')
  {
    var s := "CountryCode: 91";
    assert JsText.SkipWhitespace(s, 12) == 13;
    assert s[13] == '9';
    assert s[12..15] == " 91";
    assert s[0..10] == "CountryCod";
  }

  /** A country code without its `+` is not captured, while the phone search finds no label. */
  lemma PlusRequiredExample()
    ensures ExtractPhoneData("CountryCode: 91") == PhoneData(None, None)
  {
    var s := "CountryCode: 91";
    PlusRequiredFacts();
    MatchAtCorrect(s, CountryCodePattern, 0);
    NoLabelWhere(s, "CountryCode:", 11, 1, 4);
    NoLabelWhere(s, "Phone:", 0, 0, 10);
    ExtractIsLeftmostMatch(s, CountryCodePattern);
    ExtractIsLeftmostMatch(s, PhonePattern);
  }

  lemma IndependentFieldsFacts()
    ensures MatchesWith("Phone: 12", PhonePattern, 0, 7, 9)
    ensures "Phone: 12"[7..9] == "12"
  {
    var s := "Phone: 12";
    assert s[0..6] == "Phone:";
    LabelFromUpper(s, "Phone:", 0);
    assert s[6..7] == " ";
    assert s[7..9] == "12";
  }

  /** Each field is found on its own: a phone number alone leaves the country code `null`. */
  lemma IndependentFieldsExample()
    ensures ExtractPhoneData("Phone: 12") == PhoneData(None, Some("12"))
  {
    ExtractIsLeftmostMatch("Phone: 12", CountryCodePattern);
    IndependentFieldsFacts();
    LeftmostMatchExtracted("Phone: 12", PhonePattern, 0, 7, 9);
  }
}
