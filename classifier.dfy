/**
  The chat server's general-question classifier and its canned replies. A message
  is "general" when its lower-cased, stripped text contains one of a fixed list of
  phrases; a general message is answered from five fixed replies instead of by the
  agent. Every phrase is plain text, so a regular-expression search for it is a
  substring test.
 */
module Classifier {
  import opened PyStr

  // The general-question phrases, in the server's order, in four runs.

  /** Questions about the tutor itself. */
  const AboutTheTutor: seq<string> := [
    "who are you", "what are you", "how are you", "tell me about yourself", "introduce yourself"
  ]

  /** Questions about what the tutor does. */
  const AboutItsUse: seq<string> := [
    "what can you do", "what do you do", "what is your purpose", "what is your job",
    "how does this work", "what is this"
  ]

  /** Greetings; the reply chain tests the same seven words, in the same order. */
  const GreetingWords: seq<string> := [
    "hello", "hi", "hey", "good morning", "good afternoon", "good evening", "greetings"
  ]

  /** Questions about the tutor's name, nature and making. */
  const AboutItsMaking: seq<string> := [
    "what is your name", "your name", "are you human", "are you real", "what are you made of",
    "what language are you", "created", "developed", "built", "made"
  ]

  /** The 28 phrases that mark a message as general. */
  const GeneralPatterns: seq<string> := AboutTheTutor + AboutItsUse + GreetingWords + AboutItsMaking

  /** Whether some pattern occurs in `s`: the early-return search over the pattern list. */
  function MatchesAny(patterns: seq<string>, s: string): (r: bool)
    ensures r <==> exists p :: p in patterns && Contains(s, p)
    decreases |patterns|
  {
    if patterns == [] then false
    else if Contains(s, patterns[0]) then true
    else MatchesAny(patterns[1..], s)
  }

  /** `is_general_question`. */
  predicate IsGeneralQuestion(message: string)
  {
    MatchesAny(GeneralPatterns, Strip(Lower(message)))
  }

  /** Every phrase of `patterns` is non-empty and neither starts nor ends with whitespace. */
  predicate AllStripped(patterns: seq<string>)
  {
    forall p :: p in patterns ==> p != [] && IsStripped(p)
  }

  /** A phrase that starts and ends with a lower-case letter is stripped. */
  predicate LetterBounded(p: string)
  {
    p != [] && 'a' <= p[0] <= 'z' && 'a' <= p[|p| - 1] <= 'z'
  }

  lemma LetterBoundedStripped(patterns: seq<string>)
    requires forall p :: p in patterns ==> LetterBounded(p)
    ensures AllStripped(patterns)
  {
  }

  /** None of the 28 phrases is empty or starts or ends with whitespace. */
  lemma PatternsAreStripped()
    ensures AllStripped(GeneralPatterns)
  {
    LetterBoundedStripped(AboutTheTutor);
    LetterBoundedStripped(AboutItsUse);
    LetterBoundedStripped(GreetingWords);
    LetterBoundedStripped(AboutItsMaking);
  }

  /** A message is general exactly when its lower-cased text contains a pattern; stripping changes nothing. */
  lemma GeneralIff(message: string)
    ensures IsGeneralQuestion(message) <==> exists p :: p in GeneralPatterns && Contains(Lower(message), p)
  {
    PatternsAreStripped();
    forall p | p in GeneralPatterns
      ensures Contains(Strip(Lower(message)), p) <==> Contains(Lower(message), p)
    {
      ContainsStrip(Lower(message), p);
    }
  }

  /** The order of the patterns does not matter: any rearrangement classifies every string the same way. */
  lemma OrderIrrelevant(patterns: seq<string>, reordered: seq<string>, s: string)
    requires multiset(patterns) == multiset(reordered)
    ensures MatchesAny(patterns, s) == MatchesAny(reordered, s)
  {
    forall p | p in patterns ensures p in reordered {
      assert p in multiset(patterns);
    }
    forall p | p in reordered ensures p in patterns {
      assert p in multiset(reordered);
    }
  }

  /** Whitespace around a message does not change whether it is general. */
  lemma PaddingIrrelevant(w1: string, message: string, w2: string)
    requires AllSpace(w1) && AllSpace(w2)
    ensures IsGeneralQuestion(w1 + message + w2) == IsGeneralQuestion(message)
  {
    StripLowerCommute(w1 + message + w2);
    StripLowerCommute(message);
    StripIgnoresPadding(w1, message, w2);
  }

  /** `lower().strip()` of a message that is already lower-case and stripped is the message. */
  lemma NormalizedIsItself(m: string, s: string)
    requires |m| == |s| && s != [] && IsStripped(s)
    requires forall i :: 0 <= i < |m| ==> LowerChar(m[i]) == s[i]
    ensures Strip(Lower(m)) == s
  {
    assert Lower(m) == s;
    StripPadded([], s, []);
    assert [] + s + [] == s;
  }

  /** A phrase of the list that occurs in `s` makes the search succeed. */
  lemma MatchBy(patterns: seq<string>, s: string, p: string, i: int)
    requires p in patterns && OccursAt(s, p, i)
    ensures MatchesAny(patterns, s)
  {
  }

  /** A pattern of the list that occurs in the normalized message makes it general. */
  lemma GeneralBy(message: string, p: string, i: int)
    requires p in GeneralPatterns && OccursAt(Strip(Lower(message)), p, i)
    ensures IsGeneralQuestion(message)
  {
  }

  lemma HelloIsGeneral(m: string)
    requires m == "Hello"
    ensures IsGeneralQuestion(m)
  {
    NormalizedIsItself(m, "hello");
    GeneralBy(m, "hello", 0);
  }

  lemma WhoAreYouIsGeneral(m: string)
    requires m == "Who are you?"
    ensures IsGeneralQuestion(m)
  {
    NormalizedIsItself(m, "who are you?");
    GeneralBy(m, "who are you", 0);
  }

  lemma HowAreYouIsGeneral(m: string)
    requires m == "How are you?"
    ensures IsGeneralQuestion(m)
  {
    NormalizedIsItself(m, "how are you?");
    GeneralBy(m, "how are you", 0);
  }

  lemma WhatCanYouDoIsGeneral(m: string)
    requires m == "What can you do?"
    ensures IsGeneralQuestion(m)
  {
    NormalizedIsItself(m, "what can you do?");
    GeneralBy(m, "what can you do", 0);
  }

  lemma TellMeAboutYourselfIsGeneral(m: string)
    requires m == "Tell me about yourself"
    ensures IsGeneralQuestion(m)
  {
    NormalizedIsItself(m, "tell me about yourself");
    GeneralBy(m, "tell me about yourself", 0);
  }

  /** No phrase of `patterns` occurs in `s`. */
  predicate NoneOccurs(patterns: seq<string>, s: string)
  {
    forall p :: p in patterns ==> !Contains(s, p)
  }

  /** A topic question reaches the agent: no phrase occurs in it. */
  lemma TopicQuestionIsNotGeneral(m: string)
    requires m == "What is Physical AI?"
    ensures !IsGeneralQuestion(m)
  {
    var s := "what is physical ai?";
    NormalizedIsItself(m, s);
    TopicMissesTutor(s);
    TopicMissesUse(s);
    TopicMissesGreetings(s);
    TopicMissesMaking(s);
  }

  lemma TopicMissesTutor(s: string)
    requires s == "what is physical ai?"
    ensures NoneOccurs(AboutTheTutor, s)
  {
    forall p | p in AboutTheTutor ensures !Contains(s, p) {
      MissingChar(s, p, 'o');
    }
  }

  lemma TopicMissesUse(s: string)
    requires s == "what is physical ai?"
    ensures NoneOccurs(AboutItsUse, s)
  {
    forall p | p in AboutItsUse ensures !Contains(s, p) {
      if p == "what is this" {
        assert s[..|p|] != p by {
          assert s[8] != p[8];
        }
        OnlyAtStart(s, p);
      } else {
        MissingChar(s, p, 'o');
      }
    }
  }

  lemma TopicMissesGreetings(s: string)
    requires s == "what is physical ai?"
    ensures NoneOccurs(GreetingWords, s)
  {
    forall p | p in GreetingWords ensures !Contains(s, p) {
      if p == "hi" {
        HiAbsent(s);
      } else if p == "hey" || p == "hello" {
        MissingChar(s, p, 'e');
      } else {
        MissingChar(s, p, 'g');
      }
    }
  }

  lemma TopicMissesMaking(s: string)
    requires s == "what is physical ai?"
    ensures NoneOccurs(AboutItsMaking, s)
  {
    forall p | p in AboutItsMaking ensures !Contains(s, p) {
      if p == "built" {
        MissingChar(s, p, 'b');
      } else if p == "made" {
        MissingChar(s, p, 'm');
      } else {
        MissingChar(s, p, 'e');
      }
    }
  }

  /** "hi" does not occur in "what is physical ai?": every "h" there is followed by something else. */
  lemma HiAbsent(s: string)
    requires s == "what is physical ai?"
    ensures !Contains(s, "hi")
  {
    var a, b, c, d := "wha", "t is p", "h", "ysical ai?";
    assert s == a + b + c + d;
    MissingChar(a, "hi", 'i');
    MissingChar(b, "hi", 'h');
    MissingChar(c, "hi", 'i');
    MissingChar(d, "hi", 'h');
    PairAcrossSeam(a, b, "hi");
    PairAcrossSeam(a + b, c, "hi");
    PairAcrossSeam(a + b + c, d, "hi");
  }

  /** The short patterns match inside other words: "this" contains "hi", so this request counts as general. */
  lemma HiInsideThis(m: string)
    requires m == "Explain this"
    ensures IsGeneralQuestion(m)
  {
    NormalizedIsItself(m, "explain this");
    assert "explain this"[9..11] == "hi";
    GeneralBy(m, "hi", 9);
  }

  /** A technical question that mentions how something is made counts as general. */
  lemma MadeInsideQuestion(m: string)
    requires m == "How is a gripper made?"
    ensures IsGeneralQuestion(m)
  {
    NormalizedIsItself(m, "how is a gripper made?");
    assert "how is a gripper made?"[17..21] == "made";
    GeneralBy(m, "made", 17);
  }

  // ---------------------------------------------------------------------------
  // handle_general_question

  /** Which of the five canned replies a general message gets. */
  datatype Reply = Identity | Wellbeing | Capability | Greeting | Fallback

  /** The text of each canned reply. */
  function ReplyText(r: Reply): string
  {
    match r
    case Identity => "I'm an AI tutor specializing in Physical AI and Humanoid Robotics. I can help you understand concepts from the textbook. What would you like to learn about Physical AI or Humanoid Robotics?"
    case Wellbeing => "I'm functioning well, thank you! I'm here to help you learn about Physical AI and Humanoid Robotics. Would you like to explore a concept from the textbook?"
    case Capability => "I can explain concepts about Physical AI and Humanoid Robotics based on the textbook. Ask me anything about these topics!"
    case Greeting => "Hello! I'm an AI tutor for Physical AI and Humanoid Robotics. I can help you understand concepts from the textbook. What would you like to learn?"
    case Fallback => "I'm an AI assistant specialized in Physical AI and Humanoid Robotics. I can only provide information from the textbook content. What would you like to know about Physical AI or Humanoid Robotics?"
  }

  const IdentityPhrases: seq<string> := ["who are you", "what are you", "introduce yourself", "tell me about yourself"]
  const WellbeingPhrase := "how are you"
  const CapabilityPhrases: seq<string> := ["what can you do", "what do you do", "purpose"]

  /** The prioritised chain of `handle_general_question`: the first branch whose phrases occur wins. */
  function ChooseReply(message: string): Reply
  {
    var s := Strip(Lower(message));
    if MatchesAny(IdentityPhrases, s) then Identity
    else if Contains(s, WellbeingPhrase) then Wellbeing
    else if MatchesAny(CapabilityPhrases, s) then Capability
    else if MatchesAny(GreetingWords, s) then Greeting
    else Fallback
  }

  /** `handle_general_question`. */
  function HandleGeneralQuestion(message: string): (reply: string)
    ensures exists r :: reply == ReplyText(r)
  {
    ReplyText(ChooseReply(message))
  }

  /** Each reply is chosen exactly when its branch is the first one whose phrases occur. */
  lemma ReplyBranches(message: string)
    ensures var s := Strip(Lower(message));
      var identity := exists p :: p in IdentityPhrases && Contains(s, p);
      var wellbeing := Contains(s, WellbeingPhrase);
      var capability := exists p :: p in CapabilityPhrases && Contains(s, p);
      var greeting := exists p :: p in GreetingWords && Contains(s, p);
      && (ChooseReply(message) == Identity <==> identity)
      && (ChooseReply(message) == Wellbeing <==> !identity && wellbeing)
      && (ChooseReply(message) == Capability <==> !identity && !wellbeing && capability)
      && (ChooseReply(message) == Greeting <==> !identity && !wellbeing && !capability && greeting)
      && (ChooseReply(message) == Fallback <==> !identity && !wellbeing && !capability && !greeting)
  {
  }

  /** A message with an identity phrase gets the identity reply, whatever else it holds. */
  lemma IdentityReply(message: string, p: string)
    requires p in IdentityPhrases && Contains(Strip(Lower(message)), p)
    ensures HandleGeneralQuestion(message) == ReplyText(Identity)
  {
    HandleIsChosenText(message, Identity);
  }

  /** With no identity phrase, "how are you" gets the wellbeing reply. */
  lemma WellbeingReply(message: string)
    requires NoneOccurs(IdentityPhrases, Strip(Lower(message)))
    requires Contains(Strip(Lower(message)), WellbeingPhrase)
    ensures HandleGeneralQuestion(message) == ReplyText(Wellbeing)
  {
    ChosenWellbeing(message);
    HandleIsChosenText(message, Wellbeing);
  }

  /** With neither of the earlier branches, a capability phrase gets the capability reply. */
  lemma CapabilityReply(message: string, p: string)
    requires NoneOccurs(IdentityPhrases, Strip(Lower(message)))
    requires !Contains(Strip(Lower(message)), WellbeingPhrase)
    requires p in CapabilityPhrases && Contains(Strip(Lower(message)), p)
    ensures HandleGeneralQuestion(message) == ReplyText(Capability)
  {
    HandleIsChosenText(message, Capability);
  }

  /** With none of the earlier branches, a greeting word gets the greeting reply. */
  lemma GreetingReply(message: string, p: string)
    requires NoneOccurs(IdentityPhrases, Strip(Lower(message)))
    requires !Contains(Strip(Lower(message)), WellbeingPhrase)
    requires NoneOccurs(CapabilityPhrases, Strip(Lower(message)))
    requires p in GreetingWords && Contains(Strip(Lower(message)), p)
    ensures HandleGeneralQuestion(message) == ReplyText(Greeting)
  {
    ChosenGreeting(message, p);
    HandleIsChosenText(message, Greeting);
  }

  lemma ChosenWellbeing(message: string)
    requires NoneOccurs(IdentityPhrases, Strip(Lower(message)))
    requires Contains(Strip(Lower(message)), WellbeingPhrase)
    ensures ChooseReply(message) == Wellbeing
  {
  }

  lemma ChosenGreeting(message: string, p: string)
    requires NoneOccurs(IdentityPhrases, Strip(Lower(message)))
    requires !Contains(Strip(Lower(message)), WellbeingPhrase)
    requires NoneOccurs(CapabilityPhrases, Strip(Lower(message)))
    requires p in GreetingWords && Contains(Strip(Lower(message)), p)
    ensures ChooseReply(message) == Greeting
  {
  }

  /** A message that matches no branch gets the fallback reply. */
  lemma FallbackReply(message: string)
    requires NoneOccurs(IdentityPhrases, Strip(Lower(message)))
    requires !Contains(Strip(Lower(message)), WellbeingPhrase)
    requires NoneOccurs(CapabilityPhrases, Strip(Lower(message)))
    requires NoneOccurs(GreetingWords, Strip(Lower(message)))
    ensures HandleGeneralQuestion(message) == ReplyText(Fallback)
  {
    HandleIsChosenText(message, Fallback);
  }

  lemma HandleIsChosenText(message: string, c: Reply)
    requires c == ChooseReply(message)
    ensures HandleGeneralQuestion(message) == ReplyText(c)
  {
  }

  /** Identity outranks greeting: a message holding both gets the identity reply. */
  lemma IdentityBeforeGreeting(m: string)
    requires m == "Hello, who are you?"
    ensures IsGeneralQuestion(m)
    ensures MatchesAny(GreetingWords, Strip(Lower(m)))
    ensures ChooseReply(m) == Identity
  {
    NormalizedIsItself(m, "hello, who are you?");
    GreetingAndIdentity("hello, who are you?");
    GeneralBy(m, "hello", 0);
  }

  lemma GreetingAndIdentity(s: string)
    requires s == "hello, who are you?"
    ensures OccursAt(s, "hello", 0) && MatchesAny(GreetingWords, s) && MatchesAny(IdentityPhrases, s)
  {
    assert s[0..5] == "hello";
    MatchBy(GreetingWords, s, "hello", 0);
    assert s[7..18] == "who are you";
    MatchBy(IdentityPhrases, s, "who are you", 7);
  }

  /** A plain greeting gets the greeting reply. */
  lemma HelloGetsGreeting(m: string)
    requires m == "Hello"
    ensures ChooseReply(m) == Greeting
  {
    NormalizedIsItself(m, "hello");
    HelloMatchesOnlyGreeting("hello");
  }

  lemma HelloMatchesOnlyGreeting(s: string)
    requires s == "hello"
    ensures !MatchesAny(IdentityPhrases, s) && !Contains(s, WellbeingPhrase)
    ensures !MatchesAny(CapabilityPhrases, s) && MatchesAny(GreetingWords, s)
  {
    forall p | p in IdentityPhrases + [WellbeingPhrase] + CapabilityPhrases ensures !Contains(s, p) {
      if p == "purpose" {
        MissingChar(s, p, 'p');
      } else {
        MissingChar(s, p, 'y');
      }
    }
    assert OccursAt(s, "hello", 0);
  }
}
