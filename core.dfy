/**
 * The stateless heuristics of the triage service (core.py): four keyword
 * classifiers, the disclaimer chooser, the message sanitiser and the cache-key
 * builder.
 *
 * Every classifier searches a message with one compiled pattern of the shape
 * `\b(?:alt1|alt2|...)\b` under IGNORECASE. The pattern is modelled at two
 * levels: `Search` follows the regular-expression semantics (`\b` as a change
 * between word and non-word characters, the leftmost position, the first
 * alternative that succeeds there), and `ContainsWholeWord` is the plain
 * reading "the word occurs, ignoring case, not glued to other word
 * characters". `PatternOccursIffWholeWord` ties the two together.
 *
 * Characters follow the ASCII part of Python's semantics: `\w` is
 * [A-Za-z0-9_], `str.lower` and IGNORECASE fold A-Z only, and `str.strip`
 * removes the ASCII characters for which `str.isspace` holds.
 */
module Core {
  import opened Wrappers

  /* ------------------------------------------------------------------ */
  /* Characters                                                          */
  /* ------------------------------------------------------------------ */

  predicate IsLetter(c: char) {
    ('a' <= c <= 'z') || ('A' <= c <= 'Z')
  }

  /** `\w` of the `re` module, on ASCII. */
  predicate IsWordChar(c: char) {
    IsLetter(c) || ('0' <= c <= '9') || c == '_'
  }

  /** `str.isspace()` on ASCII: space, \t \n \v \f \r and the separators 0x1C-0x1F. */
  predicate IsSpace(c: char) {
    c == ' ' || ('\t' <= c <= '\r') || ('\U{1C}' <= c <= '\U{1F}')
  }

  /** Word characters and whitespace are both ASCII and never overlap; every
      letter is a word character and the blank is whitespace. */
  lemma WordAndSpaceClasses(c: char)
    ensures IsLetter(c) ==> IsWordChar(c)
    ensures IsWordChar(c) ==> c as int < 0x80 && !IsSpace(c)
    ensures IsSpace(c) ==> c as int < 0x80
    ensures IsSpace(' ') && !IsWordChar(' ')
  {
  }

  /** `str.lower()` on one ASCII character. */
  function LowerChar(c: char): (r: char)
    ensures IsLetter(r) <==> IsLetter(c)
    ensures IsWordChar(r) <==> IsWordChar(c)
    ensures !('A' <= r <= 'Z')
  {
    if 'A' <= c <= 'Z' then (c as int - 'A' as int + 'a' as int) as char else c
  }

  /** `str.lower()`. */
  function Lower(s: string): (r: string)
    ensures |r| == |s|
    ensures forall i :: 0 <= i < |s| ==> r[i] == LowerChar(s[i])
  {
    seq(|s|, i requires 0 <= i < |s| => LowerChar(s[i]))
  }

  /* ------------------------------------------------------------------ */
  /* Whole-word matching: the reference reading                          */
  /* ------------------------------------------------------------------ */

  ghost predicate SameIgnoringCase(a: string, b: string) {
    |a| == |b| && forall j :: 0 <= j < |a| ==> LowerChar(a[j]) == LowerChar(b[j])
  }

  /** `w` occurs at position `i` of `s`, ignoring case, with no word character
      immediately before or after it. */
  ghost predicate WholeWordAt(s: string, i: int, w: string) {
    && 0 <= i && i + |w| <= |s|
    && SameIgnoringCase(s[i..i + |w|], w)
    && (i == 0 || !IsWordChar(s[i - 1]))
    && (i + |w| == |s| || !IsWordChar(s[i + |w|]))
  }

  ghost predicate ContainsWholeWord(s: string, w: string) {
    exists i :: WholeWordAt(s, i, w)
  }

  /** Every occurrence of `w` begins with its first two letters (up to case). */
  lemma WholeWordStartsWith(s: string, i: int, w: string)
    requires |w| >= 2 && WholeWordAt(s, i, w)
    ensures LowerChar(s[i]) == LowerChar(w[0]) && LowerChar(s[i + 1]) == LowerChar(w[1])
  {
    assert s[i..i + |w|][0] == s[i];
    assert s[i..i + |w|][1] == s[i + 1];
  }

  /* ------------------------------------------------------------------ */
  /* Whole-word matching: the regular-expression semantics               */
  /* ------------------------------------------------------------------ */

  predicate IsWordAt(s: string, i: int) {
    0 <= i < |s| && IsWordChar(s[i])
  }

  /** `\b`: exactly one of the characters around position `i` is a word character
      (outside the string counts as a non-word character). */
  function IsBoundary(s: string, i: int): (r: bool)
    // At the ends of the string `\b` matches only next to a word character.
    ensures i == 0 ==> (r <==> |s| > 0 && IsWordChar(s[0]))
    ensures i == |s| ==> (r <==> |s| > 0 && IsWordChar(s[|s| - 1]))
    // Inside the string it matches where word and non-word characters meet.
    ensures 0 < i < |s| ==> (r <==> IsWordChar(s[i - 1]) != IsWordChar(s[i]))
    // Outside the string it never matches.
    ensures (i < 0 || i > |s|) ==> !r
  {
    IsWordAt(s, i - 1) != IsWordAt(s, i)
  }

  /** The literal `w` matches at `i` under IGNORECASE. */
  predicate LiteralAt(s: string, i: nat, w: string) {
    i + |w| <= |s| && Lower(s[i..i + |w|]) == Lower(w)
  }

  /** `\bw\b` matches starting at `i`. */
  predicate MatchesAt(s: string, i: nat, w: string) {
    LiteralAt(s, i, w) && IsBoundary(s, i) && IsBoundary(s, i + |w|)
  }

  /** The IGNORECASE literal test compares position by position after
      lower-casing, and needs the whole literal inside the string. */
  lemma LiteralAtPointwise(s: string, i: nat, w: string)
    ensures LiteralAt(s, i, w) <==>
              i + |w| <= |s| && forall j :: 0 <= j < |w| ==> LowerChar(s[i + j]) == LowerChar(w[j])
  {
    if i + |w| <= |s| {
      var t := s[i..i + |w|];
      assert forall j :: 0 <= j < |w| ==> t[j] == s[i + j];
      if forall j :: 0 <= j < |w| ==> LowerChar(s[i + j]) == LowerChar(w[j]) {
        assert Lower(t) == Lower(w);
      }
      if LiteralAt(s, i, w) {
        forall j | 0 <= j < |w| ensures LowerChar(s[i + j]) == LowerChar(w[j]) {
          assert Lower(t)[j] == Lower(w)[j];
        }
      }
    }
  }

  /** `\b` on either side of a literal that starts and ends with a word
      character keeps it apart from the word characters around it. */
  lemma MatchesAtIsolated(s: string, i: nat, w: string)
    requires MatchesAt(s, i, w) && |w| > 0
    ensures IsWordChar(w[0]) ==> i == 0 || !IsWordChar(s[i - 1])
    ensures IsWordChar(w[|w| - 1]) ==> i + |w| == |s| || !IsWordChar(s[i + |w|])
  {
    var t := s[i..i + |w|];
    assert Lower(t)[0] == Lower(w)[0] && Lower(t)[|w| - 1] == Lower(w)[|w| - 1];
    assert t[0] == s[i] && t[|w| - 1] == s[i + |w| - 1];
  }

  /** A compiled `re.compile(r"\b(?:alt1|alt2|...)\b", re.IGNORECASE)`. */
  datatype Pattern = WordAlternation(alternatives: seq<string>)

  /** The span of a successful `search`. */
  datatype Match = Match(start: nat, end: nat)

  predicate StartsAndEndsWithLetter(w: string) {
    |w| > 0 && IsLetter(w[0]) && IsLetter(w[|w| - 1])
  }

  /** Every alternative starts and ends with a letter, so `\b` around it means
      "not glued to another word character". */
  predicate WellFormed(p: Pattern) {
    forall k :: 0 <= k < |p.alternatives| ==> StartsAndEndsWithLetter(p.alternatives[k])
  }

  ghost predicate MatchesSomeAlternativeAt(alternatives: seq<string>, s: string, i: nat) {
    exists k :: 0 <= k < |alternatives| && MatchesAt(s, i, alternatives[k])
  }

  ghost predicate PatternOccurs(p: Pattern, s: string) {
    exists i :: 0 <= i <= |s| && MatchesSomeAlternativeAt(p.alternatives, s, i)
  }

  /** For a pattern whose alternatives start and end with letters, `\bw\b`
      is exactly the whole-word reading. */
  lemma MatchesAtIsWholeWord(s: string, i: nat, w: string)
    requires StartsAndEndsWithLetter(w)
    ensures MatchesAt(s, i, w) <==> WholeWordAt(s, i, w)
  {
    if i + |w| <= |s| {
      var t := s[i..i + |w|];
      if Lower(t) == Lower(w) {
        forall j | 0 <= j < |t| ensures LowerChar(t[j]) == LowerChar(w[j]) {
          assert Lower(t)[j] == Lower(w)[j];
        }
      }
      if SameIgnoringCase(t, w) {
        assert Lower(t) == Lower(w);
        assert t[0] == s[i] && t[|w| - 1] == s[i + |w| - 1];
        assert IsLetter(s[i]) && IsLetter(s[i + |w| - 1]);
      }
    }
  }

  /** The index of the first alternative, from `k` on, that matches at `i`:
      the order in which the regular-expression engine tries an alternation. */
  function FirstAlternative(alternatives: seq<string>, s: string, i: nat, k: nat): (r: Option<nat>)
    requires k <= |alternatives|
    ensures r.Some? ==> k <= r.value < |alternatives| && MatchesAt(s, i, alternatives[r.value])
    ensures r.Some? ==> forall j :: k <= j < r.value ==> !MatchesAt(s, i, alternatives[j])
    ensures r.None? ==> forall j :: k <= j < |alternatives| ==> !MatchesAt(s, i, alternatives[j])
    decreases |alternatives| - k
  {
    if k == |alternatives| then None
    else if MatchesAt(s, i, alternatives[k]) then Some(k)
    else FirstAlternative(alternatives, s, i, k + 1)
  }

  /** `p.search(s)` started at position `i`: the first position at or after `i`
      where some alternative matches, spanning the first such alternative. */
  function SearchFrom(p: Pattern, s: string, i: nat): (r: Option<Match>)
    requires i <= |s| + 1
    ensures r.Some? ==>
      && i <= r.value.start <= |s|
      && FirstAlternative(p.alternatives, s, r.value.start, 0).Some?
      && r.value.end == r.value.start + |p.alternatives[FirstAlternative(p.alternatives, s, r.value.start, 0).value]|
    ensures r.Some? ==> forall j :: i <= j < r.value.start ==> FirstAlternative(p.alternatives, s, j, 0).None?
    ensures r.None? ==> forall j :: i <= j <= |s| ==> FirstAlternative(p.alternatives, s, j, 0).None?
    decreases |s| + 1 - i
  {
    if i > |s| then None
    else
      var first := FirstAlternative(p.alternatives, s, i, 0);
      if first.Some? then Some(Match(i, i + |p.alternatives[first.value]|))
      else SearchFrom(p, s, i + 1)
  }

  /** Some alternative matches at `i` exactly when the alternation does. */
  lemma FirstAlternativeFinds(alternatives: seq<string>, s: string, i: nat)
    ensures FirstAlternative(alternatives, s, i, 0).Some? <==> MatchesSomeAlternativeAt(alternatives, s, i)
  {
    var r := FirstAlternative(alternatives, s, i, 0);
    if r.Some? {
      assert MatchesAt(s, i, alternatives[r.value]);
    }
  }

  /** `p.search(s)`: a match exactly when the pattern occurs somewhere, and then
      the leftmost one. */
  function Search(p: Pattern, s: string): (r: Option<Match>)
    ensures r.Some? <==> PatternOccurs(p, s)
    ensures r.Some? ==> MatchesSomeAlternativeAt(p.alternatives, s, r.value.start)
    ensures r.Some? ==> forall j :: 0 <= j < r.value.start ==> !MatchesSomeAlternativeAt(p.alternatives, s, j)
  {
    var r := SearchFrom(p, s, 0);
    assert r.Some? ==> MatchesSomeAlternativeAt(p.alternatives, s, r.value.start) by {
      if r.Some? {
        FirstAlternativeFinds(p.alternatives, s, r.value.start);
      }
    }
    assert r.Some? ==> forall j :: 0 <= j < r.value.start ==> !MatchesSomeAlternativeAt(p.alternatives, s, j) by {
      if r.Some? {
        forall j | 0 <= j < r.value.start ensures !MatchesSomeAlternativeAt(p.alternatives, s, j) {
          FirstAlternativeFinds(p.alternatives, s, j);
        }
      }
    }
    assert r.None? ==> !PatternOccurs(p, s) by {
      if r.None? {
        forall j | 0 <= j <= |s| ensures !MatchesSomeAlternativeAt(p.alternatives, s, j) {
          FirstAlternativeFinds(p.alternatives, s, j);
        }
      }
    }
    r
  }

  /** `any(p.search(s) for p in patterns)`. */
  function AnyPatternMatches(patterns: seq<Pattern>, s: string): (r: bool)
    ensures r <==> exists j :: 0 <= j < |patterns| && PatternOccurs(patterns[j], s)
  {
    if |patterns| == 0 then false
    else
      assert forall j :: 0 <= j < |patterns| - 1 ==> patterns[1..][j] == patterns[j + 1];
      Search(patterns[0], s).Some? || AnyPatternMatches(patterns[1..], s)
  }

  lemma {:induction false} PatternOccursIffWholeWord(p: Pattern, s: string)
    requires WellFormed(p)
    ensures PatternOccurs(p, s) <==>
            exists k :: 0 <= k < |p.alternatives| && ContainsWholeWord(s, p.alternatives[k])
  {
    var alts := p.alternatives;
    if PatternOccurs(p, s) {
      var i :| 0 <= i <= |s| && MatchesSomeAlternativeAt(alts, s, i);
      var k :| 0 <= k < |alts| && MatchesAt(s, i, alts[k]);
      MatchesAtIsWholeWord(s, i, alts[k]);
      assert ContainsWholeWord(s, alts[k]);
    }
    if exists k :: 0 <= k < |alts| && ContainsWholeWord(s, alts[k]) {
      var k :| 0 <= k < |alts| && ContainsWholeWord(s, alts[k]);
      var i :| WholeWordAt(s, i, alts[k]);
      MatchesAtIsWholeWord(s, i, alts[k]);
      assert MatchesSomeAlternativeAt(alts, s, i);
    }
  }

  /** A pattern list holding the one alternation `\b(?:a|b|c)\b` matches exactly
      when one of the three words occurs as a whole word. */
  lemma ThreeWordPatternMatches(patterns: seq<Pattern>, s: string, a: string, b: string, c: string)
    requires patterns == [WordAlternation([a, b, c])]
    requires StartsAndEndsWithLetter(a) && StartsAndEndsWithLetter(b) && StartsAndEndsWithLetter(c)
    ensures AnyPatternMatches(patterns, s) <==>
            ContainsWholeWord(s, a) || ContainsWholeWord(s, b) || ContainsWholeWord(s, c)
  {
    var p := patterns[0];
    var alternatives := [a, b, c];
    assert p.alternatives == alternatives;
    assert AnyPatternMatches(patterns, s) <==> PatternOccurs(p, s);
    PatternOccursIffWholeWord(p, s);
    if exists k :: 0 <= k < 3 && ContainsWholeWord(s, alternatives[k]) {
      var k :| 0 <= k < 3 && ContainsWholeWord(s, alternatives[k]);
      assert k == 0 || k == 1 || k == 2;
    }
    if ContainsWholeWord(s, a) {
      assert ContainsWholeWord(s, alternatives[0]);
    } else if ContainsWholeWord(s, b) {
      assert ContainsWholeWord(s, alternatives[1]);
    } else if ContainsWholeWord(s, c) {
      assert ContainsWholeWord(s, alternatives[2]);
    }
  }

  /* ------------------------------------------------------------------ */
  /* The pattern lists and the classifiers                               */
  /* ------------------------------------------------------------------ */

  const IRRELEVANT_PATTERNS: seq<Pattern> := [WordAlternation(["cow", "cows", "moo"])]
  const CRISIS_PATTERNS: seq<Pattern> := [WordAlternation(["suicide", "kill myself", "don't want to live"])]
  const APPOINTMENT_PATTERNS: seq<Pattern> := [WordAlternation(["appointment", "schedule", "come in"])]
  const URGENT_PATTERNS: seq<Pattern> := [WordAlternation(["chest pain", "difficulty breathing", "shortness of breath"])]

  const DISCLAIMER: string :=
    "Illini Prompt Nurse is not legally allowed to give medical recommendations. "
    + "You must always contact McKinley Health Center for confirmation."

  ghost predicate MentionsCows(m: string) {
    ContainsWholeWord(m, "cow") || ContainsWholeWord(m, "cows") || ContainsWholeWord(m, "moo")
  }

  ghost predicate MentionsCrisis(m: string) {
    ContainsWholeWord(m, "suicide") || ContainsWholeWord(m, "kill myself")
    || ContainsWholeWord(m, "don't want to live")
  }

  ghost predicate MentionsAppointment(m: string) {
    ContainsWholeWord(m, "appointment") || ContainsWholeWord(m, "schedule") || ContainsWholeWord(m, "come in")
  }

  ghost predicate MentionsUrgentSymptom(m: string) {
    ContainsWholeWord(m, "chest pain") || ContainsWholeWord(m, "difficulty breathing")
    || ContainsWholeWord(m, "shortness of breath")
  }

  /** A message is relevant unless it mentions "cow", "cows" or "moo" as a word. */
  function IsMessageRelevant(message: string): (r: bool)
    ensures r <==> !MentionsCows(message)
  {
    ThreeWordPatternMatches(IRRELEVANT_PATTERNS, message, "cow", "cows", "moo");
    !AnyPatternMatches(IRRELEVANT_PATTERNS, message)
  }

  function ContainsCrisisLanguage(message: string): (r: bool)
    ensures r <==> MentionsCrisis(message)
  {
    ThreeWordPatternMatches(CRISIS_PATTERNS, message, "suicide", "kill myself", "don't want to live");
    AnyPatternMatches(CRISIS_PATTERNS, message)
  }

  function RecognizeAppointmentIntent(message: string): (r: bool)
    ensures r <==> MentionsAppointment(message)
  {
    ThreeWordPatternMatches(APPOINTMENT_PATTERNS, message, "appointment", "schedule", "come in");
    AnyPatternMatches(APPOINTMENT_PATTERNS, message)
  }

  function TriagePriority(message: string): (r: string)
    ensures r == "high" || r == "routine"
    ensures r == "high" <==> MentionsUrgentSymptom(message)
  {
    ThreeWordPatternMatches(URGENT_PATTERNS, message, "chest pain", "difficulty breathing", "shortness of breath");
    if AnyPatternMatches(URGENT_PATTERNS, message) then "high" else "routine"
  }

  function DisclaimerFor(message: string): (r: Option<string>)
    ensures r.Some? <==> MentionsUrgentSymptom(message)
    ensures r.Some? ==> r.value == DISCLAIMER
  {
    ThreeWordPatternMatches(URGENT_PATTERNS, message, "chest pain", "difficulty breathing", "shortness of breath");
    if AnyPatternMatches(URGENT_PATTERNS, message) then Some(DISCLAIMER) else None
  }

  /** The disclaimer and the priority use the same pattern list, so they agree. */
  lemma DisclaimerIffHighPriority(message: string)
    ensures DisclaimerFor(message).Some? <==> TriagePriority(message) == "high"
    ensures DisclaimerFor(message).Some? ==> DisclaimerFor(message).value == DISCLAIMER
  {
  }

  /* ------------------------------------------------------------------ */
  /* Sanitising                                                          */
  /* ------------------------------------------------------------------ */

  ghost predicate AllSpace(s: string) {
    forall j :: 0 <= j < |s| ==> IsSpace(s[j])
  }

  /** The number of whitespace characters at the front of `s`. */
  function LeadingSpaces(s: string): (n: nat)
    ensures n <= |s|
    ensures AllSpace(s[..n])
    ensures n < |s| ==> !IsSpace(s[n])
  {
    if |s| == 0 || !IsSpace(s[0]) then 0
    else
      var n := LeadingSpaces(s[1..]);
      assert s[..1 + n] == [s[0]] + s[1..][..n];
      1 + n
  }

  /** The number of whitespace characters at the back of `s`. */
  function TrailingSpaces(s: string): (n: nat)
    ensures n <= |s|
    ensures AllSpace(s[|s| - n..])
    ensures n < |s| ==> !IsSpace(s[|s| - n - 1])
  {
    if |s| == 0 || !IsSpace(s[|s| - 1]) then 0
    else
      var t := s[..|s| - 1];
      var n := TrailingSpaces(t);
      assert s[|s| - 1 - n..] == t[|t| - n..] + [s[|s| - 1]];
      1 + n
  }

  /** `str.strip()`: removes all whitespace at both ends and nothing else. */
  function Strip(s: string): (r: string)
    ensures exists i, j :: 0 <= i <= j <= |s| && r == s[i..j] && AllSpace(s[..i]) && AllSpace(s[j..])
    ensures r != [] ==> !IsSpace(r[0]) && !IsSpace(r[|r| - 1])
  {
    var i := LeadingSpaces(s);
    var t := s[i..];
    var n := TrailingSpaces(t);
    assert t[..|t| - n] == s[i..|s| - n];
    assert t[|t| - n..] == s[|s| - n..];
    t[..|t| - n]
  }

  /** A string with no whitespace at either end is its own strip. */
  lemma StripOfTrimmed(t: string)
    requires t == [] || (!IsSpace(t[0]) && !IsSpace(t[|t| - 1]))
    ensures Strip(t) == t
  {
    assert LeadingSpaces(t) == 0;
    assert t[0..] == t;
    assert TrailingSpaces(t) == 0;
    assert t[..|t|] == t;
  }

  lemma StripIdempotent(s: string)
    ensures Strip(Strip(s)) == Strip(s)
  {
    StripOfTrimmed(Strip(s));
  }

  /** Python's `s[:n]`; a negative `n` counts from the end. */
  function PrefixSlice(s: string, n: int): (r: string)
    ensures r <= s
    ensures 0 <= n <= |s| ==> |r| == n
    ensures n > |s| ==> r == s
    ensures n < 0 ==> |r| == (if |s| + n < 0 then 0 else |s| + n)
  {
    if n >= 0 then (if n <= |s| then s[..n] else s)
    else if |s| + n < 0 then []
    else s[..|s| + n]
  }

  const DEFAULT_MAX_CHARS: int := 500

  /** `sanitize_message`: strip, then cut to `maxChars` characters and mark the
      cut with "...". The result is the stripped text, or a prefix of it followed
      by the marker. */
  function SanitizeMessage(message: string, maxChars: int): (r: string)
    ensures r == Strip(message)
            || (|r| >= 3 && r[|r| - 3..] == "..." && r[..|r| - 3] <= Strip(message))
  {
    var t := Strip(message);
    if |t| > maxChars then
      var r := PrefixSlice(t, maxChars) + "...";
      assert r[..|r| - 3] == PrefixSlice(t, maxChars);
      r
    else t
  }

  /** With a non-negative limit: short text is only stripped, long text is cut to
      exactly `maxChars` characters plus the three-character marker. */
  lemma SanitizeCases(message: string, maxChars: int)
    requires maxChars >= 0
    ensures |Strip(message)| <= maxChars ==> SanitizeMessage(message, maxChars) == Strip(message)
    ensures |Strip(message)| > maxChars ==>
              && SanitizeMessage(message, maxChars) == Strip(message)[..maxChars] + "..."
              && |SanitizeMessage(message, maxChars)| == maxChars + 3
  {
  }

  lemma SanitizeLengthBound(message: string, maxChars: int)
    requires maxChars >= 0
    ensures |SanitizeMessage(message, maxChars)| <= maxChars + 3
  {
  }

  /** Sanitising twice with the same non-negative limit changes nothing. */
  lemma SanitizeIdempotent(message: string, maxChars: int)
    requires maxChars >= 0
    ensures SanitizeMessage(SanitizeMessage(message, maxChars), maxChars) == SanitizeMessage(message, maxChars)
  {
    var t := Strip(message);
    var r := SanitizeMessage(message, maxChars);
    StripIdempotent(message);
    if |t| > maxChars {
      assert r == t[..maxChars] + "...";
      assert r[|r| - 1] == '.';
      if maxChars > 0 {
        assert r[0] == t[0];
      }
      StripOfTrimmed(r);
      assert r[..maxChars] == t[..maxChars];
    }
  }

  /** One pass with limit -1 over text without outer whitespace. */
  lemma SanitizeTrimmedMinusOne(t: string)
    requires |t| >= 1 && !IsSpace(t[0]) && !IsSpace(t[|t| - 1])
    ensures SanitizeMessage(t, -1) == t[..|t| - 1] + "..."
  {
    StripOfTrimmed(t);
    assert PrefixSlice(t, -1) == t[..|t| - 1];
  }

  /** A negative limit slices from the end (Python semantics): limit -1 drops
      the last character and adds the marker, so sanitising again adds two more
      dots. This is why the lemmas above ask for a non-negative limit. */
  lemma SanitizeNegativeLimit(t: string)
    requires |t| >= 1 && !IsSpace(t[0]) && !IsSpace(t[|t| - 1])
    ensures SanitizeMessage(t, -1) == t[..|t| - 1] + "..."
    ensures SanitizeMessage(SanitizeMessage(t, -1), -1) == t[..|t| - 1] + "....."
  {
    SanitizeTrimmedMinusOne(t);
    var r := t[..|t| - 1] + "...";
    assert r[0] == (if |t| >= 2 then t[0] else '.');
    assert r[|r| - 1] == '.';
    SanitizeTrimmedMinusOne(r);
    assert r[..|r| - 1] + "..." == t[..|t| - 1] + ".....";
  }

  /* ------------------------------------------------------------------ */
  /* Cache keys                                                          */
  /* ------------------------------------------------------------------ */

  /** `f"{student_id}:{message.lower()}"`. */
  function MakeCacheKey(studentId: string, message: string): (key: string)
    ensures |key| == |studentId| + 1 + |message|
    ensures key[..|studentId|] == studentId && key[|studentId|] == ':'
    ensures key[|studentId| + 1..] == Lower(message)
  {
    studentId + ":" + Lower(message)
  }

  /** For one student, two messages share a key exactly when they agree up to case. */
  lemma CacheKeyIgnoresCase(studentId: string, m1: string, m2: string)
    ensures MakeCacheKey(studentId, m1) == MakeCacheKey(studentId, m2) <==> Lower(m1) == Lower(m2)
  {
    if MakeCacheKey(studentId, m1) == MakeCacheKey(studentId, m2) {
      calc {
        Lower(m1);
        MakeCacheKey(studentId, m1)[|studentId| + 1..];
        MakeCacheKey(studentId, m2)[|studentId| + 1..];
        Lower(m2);
      }
    }
  }

  /** `a` and `b` are the same character, or the upper- and lower-case forms of
      one ASCII letter. */
  predicate CaseVariants(a: char, b: char) {
    || a == b
    || ('A' <= a <= 'Z' && b as int == a as int + 32)
    || ('A' <= b <= 'Z' && a as int == b as int + 32)
  }

  /** Lower-casing merges two characters exactly when they are case variants. */
  lemma LowerCharMerges(a: char, b: char)
    ensures LowerChar(a) == LowerChar(b) <==> CaseVariants(a, b)
  {
  }

  /** For one student, two messages share a key exactly when they have the same
      length and differ at most in the case of ASCII letters ("Hello" and
      "hello", but not "Hello" and "Hallo"). */
  lemma CacheKeyCaseVariants(studentId: string, m1: string, m2: string)
    ensures MakeCacheKey(studentId, m1) == MakeCacheKey(studentId, m2)
            <==> |m1| == |m2| && forall i :: 0 <= i < |m1| ==> CaseVariants(m1[i], m2[i])
  {
    CacheKeyIgnoresCase(studentId, m1, m2);
    if |m1| == |m2| {
      forall i | 0 <= i < |m1|
        ensures LowerChar(m1[i]) == LowerChar(m2[i]) <==> CaseVariants(m1[i], m2[i])
      {
        LowerCharMerges(m1[i], m2[i]);
      }
      if forall i :: 0 <= i < |m1| ==> CaseVariants(m1[i], m2[i]) {
        assert Lower(m1) == Lower(m2);
      }
    }
  }

  /** Two different students never share a key for the same message. */
  lemma CacheKeySeparatesStudents(id1: string, id2: string, message: string)
    requires id1 != id2
    ensures MakeCacheKey(id1, message) != MakeCacheKey(id2, message)
  {
  }

  /** When no student id contains ':', a key determines the student and the
      lower-cased message. */
  lemma CacheKeyInjectiveWithoutColon(id1: string, m1: string, id2: string, m2: string)
    requires ':' !in id1 && ':' !in id2
    requires MakeCacheKey(id1, m1) == MakeCacheKey(id2, m2)
    ensures id1 == id2 && Lower(m1) == Lower(m2)
  {
    CacheKeyIgnoresCase(id1, m1, m2);
  }

  /** With a ':' in a student id, different requests can share a key. */
  lemma CacheKeyColonCollision()
    ensures MakeCacheKey("a:b", "c") == MakeCacheKey("a", "b:c")
  {
    assert Lower("c") == "c";
    assert Lower("b:c") == "b:c";
  }
}
