/**
 Whole-utterance examples of both loops, each derived from the general
 lemmas. Each example takes its utterance (and any reply or answer) as a
 parameter whose `requires` names the one string the example is about.
 */
module Scenarios {
  import opened Wrappers
  import opened PyStr
  import opened Tokens
  import opened Numeral
  import opened Robot
  import opened Move
  import opened Listen
  import opened Conversation

  lemma ParseSmall()
    ensures ParseNum("3") == Some(3.0)
    ensures ParseNum("-2") == Some(-2.0)
  {
    ParseShowNat(3);
    ParseShowNat(2);
    assert ShowNat(3) == "3";
    assert ShowNat(2) == "2";
  }

  lemma WakeUtteranceParts(utterance: string, command: string)
    requires utterance == "hey misty move 3 seconds" && command == "move 3 seconds"
    ensures Lower(utterance) == [] + WakeWord + (" " + command)
  {
    LowerOfLower(utterance);
  }

  lemma WakeWordAlone()
    ensures !Contains([] + WakeWord[..|WakeWord| - 1], WakeWord)
  {
    if Contains([] + WakeWord[..|WakeWord| - 1], WakeWord) {
      ContainsFits([] + WakeWord[..|WakeWord| - 1], WakeWord);
    }
  }

  lemma WakeRest(command: string)
    requires command == "move 3 seconds"
    ensures !Contains(" " + command, WakeWord)
    ensures Strip([] + (" " + command)) == command
  {
    var rest := " " + command;
    assert 'h' !in rest;
    if Contains(rest, WakeWord) {
      ContainsFirst(rest, WakeWord);
    }
    assert Trimmed(command) by {
      assert command[0] == 'm' && command[|command| - 1] == 's';
    }
    StripPadded(" ", command, []);
    assert [] + rest == " " + command + [];
  }

  /** `hey misty move 3 seconds`: the wake-word listener hands over `move 3 seconds`. */
  lemma WakeWordStripped(utterance: string, command: string)
    requires utterance == "hey misty move 3 seconds" && command == "move 3 seconds"
    ensures WakeListen([Heard(utterance)]) == Returned(Some(command), 1)
  {
    WakeUtteranceParts(utterance, command);
    WakeWordAlone();
    WakeRest(command);
    WakeStepSingle(utterance, [], " " + command);
    assert [Heard(utterance)][1..] == [];
  }

  /** ... which drives forward and stops, and nothing is asked of the completion service. */
  lemma MoveThreeSeconds(command: string, reply: string)
    requires command == "move 3 seconds"
    ensures MistyMove(command) == MoveResult(true, [Forward, Halt])
    ensures AltIteration(Some(command), reply) == [Drive(Forward), Drive(Halt)]
  {
    assert Phrase([], " ", "3", " ", []) == command;
    MoveOfPhrase([], " ", "3", " ", []);
    ParseSmall();
    AltIterationMoves(command, reply);
  }

  lemma QuestionIsNotMove(question: string)
    requires question == "what is the weather"
    ensures MistyMove(question) == MoveResult(false, [])
  {
    var words := ["what", "is", "the", "weather"];
    assert Join(words) == question;
    SplitJoin(words);
  }

  lemma YesContinues(answer: string)
    requires answer == "yes"
    ensures Continues(answer)
  {
    assert Strip(answer) == answer by {
      StripPadded([], answer, []);
      assert [] + answer + [] == answer;
    }
    ContinuesIff(answer);
  }

  /** In the wake-word variant a question goes to the completion service verbatim
      and its reply is spoken with `flush` set. */
  lemma WeatherScenarioAlt(question: string, reply: string)
    requires question == "what is the weather"
    ensures AltIteration(Some(question), reply) == [Complete(question), Speak(SpeakRequest(reply, true))]
  {
    QuestionIsNotMove(question);
    AltIterationMoves(question, reply);
  }

  /** So it does in the plain variant, where `yes` then keeps the loop going. */
  lemma WeatherScenarioMain(question: string, reply: string, answer: string)
    requires question == "what is the weather" && answer == "yes"
    ensures MainIteration(Heard(question), reply, answer) ==
      [ListenCall, Complete(question), Speak(SpeakRequest(reply, true)), Prompt]
  {
    YesContinues(answer);
    MainIterationHeard(question, reply, answer);
  }

  /** `misty_move` matches its keywords exactly: given a capitalised `Move` directly, it
      does not move. (In the wake-word loop its input has already been lower-cased.) */
  lemma CapitalMoveScenario(command: string)
    requires command == "Move 3 seconds"
    ensures MistyMove(command) == MoveResult(false, [])
  {
    var words := ["Move", "3", "seconds"];
    assert Join(words) == command;
    SplitJoin(words);
  }

  /** Extra words after `seconds` are ignored. */
  lemma TrailingWordsScenario(command: string)
    requires command == "move 3 seconds please"
    ensures MistyMove(command) == MoveResult(true, [Forward, Halt])
  {
    ParseSmall();
    assert Phrase([], " ", "3", " ", " please") == command;
    MoveOfPhrase([], " ", "3", " ", " please");
  }

  /** A negative duration drives and never stops. */
  lemma NegativeScenario(command: string)
    requires command == "move -2 seconds"
    ensures MistyMove(command) == MoveResult(false, [Forward])
  {
    ParseSmall();
    assert Phrase([], " ", "-2", " ", []) == command;
    MoveOfPhrase([], " ", "-2", " ", []);
  }

  /** A word in place of the number posts nothing. */
  lemma WordNumberScenario(command: string)
    requires command == "move three seconds"
    ensures MistyMove(command) == MoveResult(false, [])
  {
    assert ParseNum("three") == None by {
      assert !IsNumeralChar("three"[0]);
    }
    assert Phrase([], " ", "three", " ", []) == command;
    MoveOfPhrase([], " ", "three", " ", []);
  }

  /** `float()` rejects a second point, a lone point or sign, two signs and a trailing sign. */
  lemma RejectedDurations(twoPoints: string, point: string, minus: string, twoSigns: string, trailing: string)
    requires twoPoints == "1.2.3" && point == "." && minus == "-" && twoSigns == "+-3" && trailing == "3-"
    ensures ParseNum(twoPoints) == None && ParseNum(point) == None && ParseNum(minus) == None
    ensures ParseNum(twoSigns) == None && ParseNum(trailing) == None
  {
    assert DotIndex(twoPoints) == 1;
    assert twoPoints[2..] == "2.3" && !IsDigit(twoPoints[3]);
    assert DotIndex(point) == 0 && point[1..] == [];
    assert minus[1..] == [];
    assert twoSigns[1..] == "-3" && !IsDigit(twoSigns[1]);
    assert !IsDigit(trailing[1]);
  }
}
