/**
 * Request scenarios against a fresh service, after the pipeline tests of
 * tests/test_core.py and the gate order of app.py.
 */
module AppExamples {
  import opened Wrappers
  import opened Core
  import opened CoreExamples
  import opened App

  /** "I like cows" is turned away with the fixed 400 answer. */
  method IrrelevantRequest(generate: string -> Generation) returns (outcome: Outcome)
    ensures outcome == Returned(REJECTION)
    ensures outcome.reply.status == 400
    ensures outcome.reply.response == REJECTION_TEXT
  {
    var service := new Service();
    IrrelevantExample();
    outcome := service.HandleMessage("s1", "I like cows", generate);
  }

  /** A message that mentions cows and crisis language is rejected, not
      escalated: relevance is checked before crisis language. */
  method IrrelevanceMasksCrisis(generate: string -> Generation) returns (outcome: Outcome)
    ensures ContainsCrisisLanguage("cows suicide")
    ensures outcome == Returned(REJECTION)
  {
    var s := "cows suicide";
    assert s[0..4] == "cows" && s[5..12] == "suicide";
    assert WholeWordAt(s, 0, "cows");
    assert WholeWordAt(s, 5, "suicide");
    var service := new Service();
    outcome := service.HandleMessage("s1", s, generate);
  }

  /** "I want to kill myself" passes the relevance gate. */
  lemma KillMyselfIsRelevant()
    ensures IsMessageRelevant("I want to kill myself")
  {
    var s := "I want to kill myself";
    assert NoLetterPairFrom(s, 'c', 'o', 10) && NoLetterPairFrom(s, 'm', 'o', 10);
    assert !ContainsWholeWord(s, "cow") by {
      AbsentWhenFirstTwoLettersAbsent(s, "cow");
    }
    assert !ContainsWholeWord(s, "cows") by {
      AbsentWhenFirstTwoLettersAbsent(s, "cows");
    }
    assert !ContainsWholeWord(s, "moo") by {
      AbsentWhenFirstTwoLettersAbsent(s, "moo");
    }
  }

  /** "I want to kill myself" holds crisis language. */
  lemma KillMyselfIsCrisis()
    ensures ContainsCrisisLanguage("I want to kill myself")
  {
    var s := "I want to kill myself";
    assert s[10..21] == "kill myself";
    assert WholeWordAt(s, 10, "kill myself");
  }

  /** Crisis messages are escalated every time and never enter the cache, so a
      repeated crisis message is never answered from the cache. */
  method CrisisNeverCached(generate: string -> Generation) returns (first: Outcome, second: Outcome)
    ensures first == Returned(ESCALATION) && second == Returned(ESCALATION)
    ensures first.reply.status == 202 && first.reply.priority == Some("high")
    ensures second.reply.cached == None
  {
    var service := new Service();
    KillMyselfIsRelevant();
    KillMyselfIsCrisis();
    first := service.HandleMessage("s3", "I want to kill myself", generate);
    second := service.HandleMessage("s3", "I want to kill myself", generate);
    assert service.cache == map[];
  }

  /** "I have chest pain" twice: the first answer carries the disclaimer and
      priority "high" and is computed; the second is the same text from the cache. */
  method ChestPainTwice(generate: string -> Generation) returns (first: Outcome, second: Outcome)
    requires generate("I have chest pain").Generated?
    ensures first.Returned? && second.Returned?
    ensures DISCLAIMER + " " <= first.reply.response
    ensures first.reply.priority == Some("high")
    ensures first.reply.cached == Some(false)
    ensures second.reply.cached == Some(true)
    ensures second.reply.response == first.reply.response
  {
    var service := new Service();
    ChestPainIsRelevant();
    ChestPainIsNotCrisis();
    ChestPainIsClean();
    UrgentExample();
    first := service.HandleMessage("s2", "I have chest pain", generate);
    second := service.HandleMessage("s2", "I have chest pain", generate);
  }

  /** A routine message whose default cut ends in "chest pain..." is answered
      as urgent: the handler prepends the disclaimer and reports priority
      "high", because it classifies the sanitised text. */
  method TruncatedMessageAnsweredAsUrgent(generate: string -> Generation) returns (outcome: Outcome)
    requires generate(Padding(489) + " chest pain...").Generated?
    ensures TriagePriority(Padding(489) + " chest painful") == "routine"
    ensures outcome.Returned? && outcome.reply.status == 200
    ensures outcome.reply.priority == Some("high")
    ensures DISCLAIMER + " " <= outcome.reply.response
    ensures outcome.reply.cached == Some(false)
  {
    var message := Padding(489) + " chest painful";
    PaddedChestPainfulIsRelevant(489);
    PaddedChestPainfulIsNotCrisis(489);
    TruncationCreatesUrgentMatch();
    PaddedChestPainfulTruncated();
    DisclaimerIffHighPriority(Padding(489) + " chest pain...");
    var service := new Service();
    outcome := service.HandleMessage("s4", message, generate);
  }
}
