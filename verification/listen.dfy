/**
 Speech capture reduced to its outcomes. One call of the recogniser either
 yields a transcript, fails to understand (`UnknownValueError`) or cannot
 reach the service (`RequestError`). The plain variant makes one attempt;
 the wake-word variant keeps listening until a transcript carries the wake
 word or the service is unreachable.
 */
module Listen {
  import opened Wrappers
  import opened PyStr

  datatype Recognition = Heard(transcript: string) | UnknownValue | RequestFailed

  /** `listen()` of the plain variant: the transcript in its original case, or `None` on either error. */
  function ListenOnce(outcome: Recognition): (r: Option<string>)
    ensures r.Some? <==> outcome.Heard?
    ensures r.Some? ==> r.value == outcome.transcript
  {
    match outcome
    case Heard(text) => Some(text)
    case UnknownValue => None
    case RequestFailed => None
  }

  const WakeWord: string := "hey misty"

  /** One pass of the wake-word listening loop: return a value, or listen again. */
  datatype Step = Return(command: Option<string>) | Continue

  /** What is left of a lower-cased transcript once every occurrence of the wake word
      is deleted in one pass and the ends are stripped; `None` when nothing is left. */
  function WakeCommand(text: string): (r: Option<string>)
    ensures r.Some? ==> r.value != [] && Trimmed(r.value)
    ensures r.None? <==> AllSpace(RemoveAll(text, WakeWord))
  {
    var command := Strip(RemoveAll(text, WakeWord));
    StripEmptyIff(RemoveAll(text, WakeWord));
    if command == [] then None else Some(command)
  }

  /** The body of the `while True` loop in the wake-word `listen()`. */
  function WakeStep(outcome: Recognition): (r: Step)
    ensures outcome.UnknownValue? ==> r == Continue
    ensures outcome.RequestFailed? ==> r == Return(None)
    ensures outcome.Heard? ==> (r.Return? <==> Contains(Lower(outcome.transcript), WakeWord))
    ensures outcome.Heard? && r.Return? ==> r.command == WakeCommand(Lower(outcome.transcript))
  {
    match outcome
    case Heard(transcript) =>
      var text := Lower(transcript);
      if Contains(text, WakeWord) then Return(WakeCommand(text)) else Continue
    case UnknownValue => Continue
    case RequestFailed => Return(None)
  }

  /** Whatever a wake-word `listen()` returns has no whitespace at either end and is never empty. */
  lemma WakeStepTrimmed(outcome: Recognition)
    ensures WakeStep(outcome).Return? && WakeStep(outcome).command.Some? ==>
      WakeStep(outcome).command.value != [] && Trimmed(WakeStep(outcome).command.value)
  {
  }

  lemma {:induction false} ContainsFits(s: string, p: string)
    requires Contains(s, p)
    ensures |p| <= |s|
    decreases |s|
  {
    if !(p <= s) {
      ContainsFits(s[1..], p);
    }
  }

  /** With a single occurrence of the wake word, the command is the text around it,
      glued together and stripped. */
  lemma WakeStepSingle(transcript: string, lead: string, rest: string)
    requires Lower(transcript) == lead + WakeWord + rest
    requires !Contains(lead + WakeWord[..|WakeWord| - 1], WakeWord)
    requires !Contains(rest, WakeWord)
    ensures Strip(lead + rest) == [] ==> WakeStep(Heard(transcript)) == Return(None)
    ensures Strip(lead + rest) != [] ==> WakeStep(Heard(transcript)) == Return(Some(Strip(lead + rest)))
  {
    var text := Lower(transcript);
    assert text[|lead|..|lead| + |WakeWord|] == WakeWord;
    assert OccursAt(text, WakeWord, |lead|);
    ContainsIff(text, WakeWord);
    RemoveAllLeftmost(lead, WakeWord, rest);
    RemoveAllAbsent(rest, WakeWord);
  }

  lemma LowerOfLower(s: string)
    requires forall i :: 0 <= i < |s| ==> !('A' <= s[i] <= 'Z')
    ensures Lower(s) == s
  {
  }

  lemma ReformPieces()
    ensures !Contains("y misty", WakeWord)
    ensures !Contains("he" + WakeWord[..|WakeWord| - 1], WakeWord)
  {
    if Contains("y misty", WakeWord) {
      ContainsFits("y misty", WakeWord);
    }
    var u := "he" + WakeWord[..|WakeWord| - 1];
    assert u[2] != WakeWord[2];
    assert u[1] != WakeWord[0];
    assert u[2..] == "hey mist";
    if Contains(u[2..], WakeWord) {
      ContainsFits(u[2..], WakeWord);
    }
  }

  /** One replacement pass can build a new wake word out of the pieces around a
      deleted one, so the command may itself read "hey misty". */
  lemma WakeWordCanReform()
    ensures WakeStep(Heard("hehey mistyy misty")) == Return(Some(WakeWord))
  {
    var s := "hehey mistyy misty";
    assert Strip("he" + "y misty") == WakeWord by {
      assert "he" + "y misty" == [] + WakeWord + [];
      StripPadded([], WakeWord, []);
    }
    assert Lower(s) == "he" + WakeWord + "y misty" by {
      LowerOfLower(s);
    }
    ReformPieces();
    WakeStepSingle(s, "he", "y misty");
  }

  /** The wake-word `listen()` over a run of recogniser outcomes: the value it returns
      and how many outcomes it consumed, or still listening when the run is exhausted. */
  datatype ListenRun = Returned(command: Option<string>, attempts: nat) | StillListening

  function WakeListen(outcomes: seq<Recognition>): (r: ListenRun)
    ensures r.StillListening? <==> forall i :: 0 <= i < |outcomes| ==> WakeStep(outcomes[i]) == Continue
    ensures r.Returned? ==> 1 <= r.attempts <= |outcomes|
    ensures r.Returned? ==> WakeStep(outcomes[r.attempts - 1]) == Return(r.command)
    ensures r.Returned? ==> forall i :: 0 <= i < r.attempts - 1 ==> WakeStep(outcomes[i]) == Continue
  {
    if outcomes == [] then StillListening
    else
      match WakeStep(outcomes[0])
      case Return(command) => Returned(command, 1)
      case Continue =>
        match WakeListen(outcomes[1..])
        case StillListening => StillListening
        case Returned(command, n) => Returned(command, n + 1)
  }
}
