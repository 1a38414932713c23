/**
 * The expectations of the core unit tests (tests/test_core.py), stated as
 * lemmas about the classifiers, the sanitiser and the cache key.
 */
module CoreExamples {
  import opened Wrappers
  import opened Core

  /** No position from `i` on holds `a` followed by `b` (up to case). Recursing
      on the index lets the verifier evaluate it on a literal message. */
  predicate NoLetterPairFrom(s: string, a: char, b: char, i: nat)
    decreases |s| - i
  {
    i + 1 >= |s| || (!(LowerChar(s[i]) == a && LowerChar(s[i + 1]) == b) && NoLetterPairFrom(s, a, b, i + 1))
  }

  lemma {:induction false} NoLetterPairAt(s: string, a: char, b: char, i: nat, j: nat)
    requires NoLetterPairFrom(s, a, b, i) && i <= j && j + 1 < |s|
    ensures !(LowerChar(s[j]) == a && LowerChar(s[j + 1]) == b)
    decreases j - i
  {
    if i < j {
      NoLetterPairAt(s, a, b, i + 1, j);
    }
  }

  /** A word whose first two letters never appear next to each other in `s`
      (up to case) does not occur in `s`. */
  lemma AbsentWhenFirstTwoLettersAbsent(s: string, w: string)
    requires |w| >= 2 && NoLetterPairFrom(s, LowerChar(w[0]), LowerChar(w[1]), 0)
    ensures !ContainsWholeWord(s, w)
  {
    forall i | WholeWordAt(s, i, w) ensures false {
      WholeWordStartsWith(s, i, w);
      NoLetterPairAt(s, LowerChar(w[0]), LowerChar(w[1]), 0, i);
    }
  }

  lemma IrrelevantExample()
    ensures !IsMessageRelevant("I like cows")
  {
    var s := "I like cows";
    assert s[7..11] == "cows";
    assert WholeWordAt(s, 7, "cows");
  }

  lemma CrisisExample()
    ensures ContainsCrisisLanguage("I don't want to live anymore")
  {
    var s := "I don't want to live anymore";
    assert s == "I " + "don't want to live" + " anymore";
    assert s[2..20] == "don't want to live";
    assert WholeWordAt(s, 2, "don't want to live");
  }

  lemma AppointmentExample()
    ensures RecognizeAppointmentIntent("Can I schedule an appointment?")
  {
    var s := "Can I schedule an appointment?";
    assert s == "Can I " + "schedule" + " an appointment?";
    assert s[6..14] == "schedule";
    assert WholeWordAt(s, 6, "schedule");
  }

  lemma UrgentExample()
    ensures TriagePriority("I have chest pain") == "high"
    ensures DisclaimerFor("I have chest pain") == Some(DISCLAIMER)
  {
    var s := "I have chest pain";
    assert s[7..17] == "chest pain";
    assert WholeWordAt(s, 7, "chest pain");
  }

  lemma DisclaimerExample()
    ensures DisclaimerFor("chest pain").Some?
  {
    var s := "chest pain";
    assert s[0..10] == "chest pain";
    assert WholeWordAt(s, 0, "chest pain");
  }

  /** "I have chest pain" passes the relevance gate of the request handler. */
  lemma ChestPainIsRelevant()
    ensures IsMessageRelevant("I have chest pain")
  {
    var s := "I have chest pain";
    assert NoLetterPairFrom(s, 'c', 'o', 8) && NoLetterPairFrom(s, 'm', 'o', 8);
    assert !ContainsWholeWord(s, "cow") by {
      AbsentWhenFirstTwoLettersAbsent(s, "cow");
    }
    assert !ContainsWholeWord(s, "cows") by {
      AbsentWhenFirstTwoLettersAbsent(s, "cows");
    }
    assert !ContainsWholeWord(s, "moo") by {
      AbsentWhenFirstTwoLettersAbsent(s, "moo");
    }
  }

  /** "I have chest pain" passes the crisis gate of the request handler. */
  lemma ChestPainIsNotCrisis()
    ensures !ContainsCrisisLanguage("I have chest pain")
  {
    var s := "I have chest pain";
    assert NoLetterPairFrom(s, 's', 'u', 8) && NoLetterPairFrom(s, 'k', 'i', 8) && NoLetterPairFrom(s, 'd', 'o', 8);
    assert !ContainsWholeWord(s, "suicide") by {
      AbsentWhenFirstTwoLettersAbsent(s, "suicide");
    }
    assert !ContainsWholeWord(s, "kill myself") by {
      AbsentWhenFirstTwoLettersAbsent(s, "kill myself");
    }
    assert !ContainsWholeWord(s, "don't want to live") by {
      AbsentWhenFirstTwoLettersAbsent(s, "don't want to live");
    }
  }

  /** A message already free of outer whitespace and within the limit is kept. */
  lemma ChestPainIsClean()
    ensures SanitizeMessage("I have chest pain", DEFAULT_MAX_CHARS) == "I have chest pain"
  {
    StripOfTrimmed("I have chest pain");
  }

  /** Six hundred characters are cut to 500 and marked with "...". */
  lemma SanitizeLongMessage()
    ensures var r := SanitizeMessage(seq(600, _ => 'a'), DEFAULT_MAX_CHARS);
            |r| == 503 && r[500..] == "..."
  {
    var m: string := seq(600, _ => 'a');
    StripOfTrimmed(m);
    SanitizeCases(m, DEFAULT_MAX_CHARS);
  }

  lemma CacheKeyHelloExample()
    ensures MakeCacheKey("123", "Hello") == MakeCacheKey("123", "hello")
  {
    assert Lower("Hello") == Lower("hello");
  }

  /** `n` filler letters 'a'. */
  function Padding(n: nat): string {
    seq(n, _ => 'a')
  }

  /** A word that does not start with 'a' and whose first two letters never
      meet in `t` does not occur in `t` behind any amount of padding. */
  lemma AbsentAfterPadding(n: nat, t: string, w: string)
    requires |w| >= 2 && LowerChar(w[0]) != 'a'
    requires NoLetterPairFrom(t, LowerChar(w[0]), LowerChar(w[1]), 0)
    ensures !ContainsWholeWord(Padding(n) + t, w)
  {
    var s := Padding(n) + t;
    forall i | WholeWordAt(s, i, w) ensures false {
      WholeWordStartsWith(s, i, w);
      if i >= n {
        NoLetterPairAt(t, LowerChar(w[0]), LowerChar(w[1]), 0, i - n);
      }
    }
  }

  /** Padding followed by " chest painful" passes the relevance gate. */
  lemma PaddedChestPainfulIsRelevant(n: nat)
    ensures IsMessageRelevant(Padding(n) + " chest painful")
  {
    var t := " chest painful";
    assert NoLetterPairFrom(t, 'c', 'o', 6) && NoLetterPairFrom(t, 'm', 'o', 6);
    AbsentAfterPadding(n, t, "cow");
    AbsentAfterPadding(n, t, "cows");
    AbsentAfterPadding(n, t, "moo");
  }

  /** Padding followed by " chest painful" passes the crisis gate. */
  lemma PaddedChestPainfulIsNotCrisis(n: nat)
    ensures !ContainsCrisisLanguage(Padding(n) + " chest painful")
  {
    var t := " chest painful";
    assert NoLetterPairFrom(t, 's', 'u', 6) && NoLetterPairFrom(t, 'k', 'i', 6) && NoLetterPairFrom(t, 'd', 'o', 6);
    AbsentAfterPadding(n, t, "suicide");
    AbsentAfterPadding(n, t, "kill myself");
    AbsentAfterPadding(n, t, "don't want to live");
  }

  /** "chest painful" holds no urgent phrase as a whole word, however much
      padding stands in front of it: "chest pain" is followed by a letter. */
  lemma PaddedChestPainfulIsRoutine(n: nat)
    ensures TriagePriority(Padding(n) + " chest painful") == "routine"
  {
    var t := " chest painful";
    var s := Padding(n) + t;
    forall i | WholeWordAt(s, i, "chest pain") ensures false {
      WholeWordStartsWith(s, i, "chest pain");
    }
    assert NoLetterPairFrom(t, 'd', 'i', 6) && NoLetterPairFrom(t, 's', 'h', 6);
    AbsentAfterPadding(n, t, "difficulty breathing");
    AbsentAfterPadding(n, t, "shortness of breath");
  }

  /** 489 letters followed by " chest painful" make 503 characters; the
      default limit cuts them to "... chest pain...". */
  lemma PaddedChestPainfulTruncated()
    ensures SanitizeMessage(Padding(489) + " chest painful", DEFAULT_MAX_CHARS) == Padding(489) + " chest pain..."
  {
    var t := " chest painful";
    var m := Padding(489) + t;
    assert m[0] == 'a' && m[|m| - 1] == 'l';
    StripOfTrimmed(m);
    assert t[..11] == " chest pain";
    assert m[..500] == Padding(489) + t[..11];
    assert PrefixSlice(m, 500) == m[..500];
  }

  /** "chest pain" followed by the truncation marker is urgent: '.' is not a
      word character, so `\b` matches before it. */
  lemma PaddedChestPainEllipsisIsUrgent(n: nat)
    ensures TriagePriority(Padding(n) + " chest pain...") == "high"
  {
    var t := " chest pain...";
    var r := Padding(n) + t;
    assert t[1..11] == "chest pain";
    assert r[n + 1..n + 11] == t[1..11];
    assert r[n] == ' ' && r[n + 11] == '.';
    assert WholeWordAt(r, n + 1, "chest pain");
  }

  /** The classifiers of a cache miss see the sanitised text, and the default
      cut at 500 characters can create a match: the message is routine, but
      once cut it ends in "chest pain..." and is urgent. */
  lemma TruncationCreatesUrgentMatch()
    ensures TriagePriority(Padding(489) + " chest painful") == "routine"
    ensures TriagePriority(SanitizeMessage(Padding(489) + " chest painful", DEFAULT_MAX_CHARS)) == "high"
  {
    PaddedChestPainfulIsRoutine(489);
    PaddedChestPainfulTruncated();
    PaddedChestPainEllipsisIsUrgent(489);
  }

  /** The cache key is built from the raw message and the generator is fed the
      sanitised one: messages that differ only in outer whitespace get
      different keys but the same generator input. */
  lemma KeyUsesRawText(studentId: string)
    ensures MakeCacheKey(studentId, " hello") != MakeCacheKey(studentId, "hello")
    ensures SanitizeMessage(" hello", DEFAULT_MAX_CHARS) == SanitizeMessage("hello", DEFAULT_MAX_CHARS)
  {
    var padded := " hello";
    assert LeadingSpaces(padded) == 1;
    assert padded[1..] == "hello";
    StripOfTrimmed("hello");
  }
}
