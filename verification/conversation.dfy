/**
 The two conversation loops, one iteration at a time, as traces of the
 effects they cause. Each remote call is an effect, and the values it
 would return are inputs: what `listen()` heard, the completion service's
 reply and the answer typed at the continuation prompt.
 */
module Conversation {
  import opened Wrappers
  import opened PyStr
  import opened Robot
  import opened Move
  import opened Listen

  datatype Effect =
    | ListenCall                    // `listen()` is called
    | Drive(drive: DriveRequest)    // `POST /api/drive`
    | Complete(prompt: string)      // the completion service is asked about `prompt`
    | Speak(speech: SpeakRequest)   // `POST /api/tts/speak`
    | Prompt                        // the continuation question is asked on stdin
    | Exit                          // the loop is left

  function Drives(posts: seq<DriveRequest>): (trace: seq<Effect>)
    ensures |trace| == |posts|
    ensures forall i :: 0 <= i < |posts| ==> trace[i] == Drive(posts[i])
  {
    seq(|posts|, i requires 0 <= i < |posts| => Drive(posts[i]))
  }

  predicate AsksCompletion(trace: seq<Effect>) {
    exists i :: 0 <= i < |trace| && trace[i].Complete?
  }

  function Count(trace: seq<Effect>, e: Effect): nat {
    if trace == [] then 0 else (if trace[0] == e then 1 else 0) + Count(trace[1..], e)
  }

  lemma {:induction false} CountAppend(a: seq<Effect>, b: seq<Effect>, e: Effect)
    ensures Count(a + b, e) == Count(a, e) + Count(b, e)
    decreases |a|
  {
    if a == [] {
      assert a + b == b;
    } else {
      assert (a + b)[1..] == a[1..] + b;
      CountAppend(a[1..], b, e);
    }
  }

  lemma {:induction false} CountAbsent(a: seq<Effect>, e: Effect)
    requires e !in a
    ensures Count(a, e) == 0
    decreases |a|
  {
    if a != [] {
      assert a[1..] <= a[1..];
      assert forall x :: x in a[1..] ==> x in a;
      CountAbsent(a[1..], e);
    }
  }

  // ----- the wake-word variant (alternate_main.py) -----

  /** One pass of the `while True` loop after `listen()` returned `heard`: nothing
      for an empty or absent command; otherwise `misty_move`, and only when it
      reports failure the completion call with the command text, whose reply is spoken. */
  function AltIteration(heard: Option<string>, reply: string): (trace: seq<Effect>)
    ensures heard == None || heard == Some([]) ==> trace == []
    ensures forall i :: 0 <= i < |trace| && trace[i].Complete? ==> heard == Some(trace[i].prompt)
    ensures forall i :: 0 <= i < |trace| && trace[i].Speak? ==> trace[i].speech == SpeakPayload(reply)
    ensures heard.Some? && heard.value != [] ==> (AsksCompletion(trace) <==> !MistyMove(heard.value).moved)
    ensures AsksCompletion(trace) ==>
      |trace| >= 2 && trace[|trace| - 2] == Complete(heard.value) && trace[|trace| - 1] == Speak(SpeakPayload(reply))
    ensures ListenCall !in trace && Prompt !in trace && Exit !in trace
  {
    match heard
    case None => []
    case Some(text) =>
      if text == [] then []
      else
        var move := MistyMove(text);
        var asked := if move.moved then [] else [Complete(text), Speak(SpeakPayload(reply))];
        var trace := Drives(move.posts) + asked;
        assert forall i :: 0 <= i < |move.posts| ==> trace[i].Drive?;
        assert forall i :: |move.posts| <= i < |trace| ==> trace[i] == asked[i - |move.posts|];
        assert !move.moved ==> trace[|move.posts|] == Complete(text);
        trace
  }

  /** The drive requests of a move attempt come first, and a successful move
      leaves the iteration with nothing but those requests. */
  lemma AltIterationMoves(text: string, reply: string)
    requires text != []
    ensures MistyMove(text).moved ==> AltIteration(Some(text), reply) == [Drive(Forward), Drive(Halt)]
    ensures !MistyMove(text).moved ==>
      AltIteration(Some(text), reply) == Drives(MistyMove(text).posts) + [Complete(text), Speak(SpeakPayload(reply))]
  {
  }

  datatype AltTurn = AltTurn(heard: Option<string>, reply: string)

  /** The loop over successive turns; it has no exit of its own. */
  function AltLoop(turns: seq<AltTurn>): (trace: seq<Effect>)
    ensures Count(trace, ListenCall) == |turns|
    ensures Exit !in trace && Prompt !in trace
  {
    if turns == [] then []
    else
      var first := [ListenCall] + AltIteration(turns[0].heard, turns[0].reply);
      var rest := AltLoop(turns[1..]);
      CountAppend(first, rest, ListenCall);
      CountAbsent(AltIteration(turns[0].heard, turns[0].reply), ListenCall);
      assert Count(first, ListenCall) == 1;
      first + rest
  }

  /** `main()` of the wake-word variant: nothing at all happens unless the device
      probe answered 200; then every turn starts with a `listen()` call. */
  function AltMain(probe: DeviceResponse, turns: seq<AltTurn>): (trace: seq<Effect>)
    ensures !CheckConnection(probe) ==> trace == []
    ensures CheckConnection(probe) ==> Count(trace, ListenCall) == |turns|
    ensures Exit !in trace
    ensures CheckConnection(probe) ==> trace == AltLoop(turns)
  {
    if !CheckConnection(probe) then [] else AltLoop(turns)
  }

  /** A single turn of the wake-word loop is a `listen()` call followed by that
      turn's iteration. */
  lemma AltLoopOne(t: AltTurn)
    ensures AltLoop([t]) == [ListenCall] + AltIteration(t.heard, t.reply)
  {
    assert [t][1..] == [];
  }

  /** No state carries over between turns: the trace of a run is the traces of its
      parts one after the other. */
  lemma {:induction false} AltLoopAppend(a: seq<AltTurn>, b: seq<AltTurn>)
    ensures AltLoop(a + b) == AltLoop(a) + AltLoop(b)
    decreases |a|
  {
    if a == [] {
      assert a + b == b;
    } else {
      var first := [ListenCall] + AltIteration(a[0].heard, a[0].reply);
      assert AltLoop(a + b) == first + AltLoop(a[1..] + b) by {
        assert (a + b)[0] == a[0];
        assert (a + b)[1..] == a[1..] + b;
      }
      AltLoopAppend(a[1..], b);
      assert first + (AltLoop(a[1..]) + AltLoop(b)) == (first + AltLoop(a[1..])) + AltLoop(b);
    }
  }

  // ----- the plain variant (main.py) -----

  /** Answers that keep the loop going: `y` and `yes` in any letter case. */
  const YesAnswers: set<string> := {"y", "Y", "yes", "yeS", "yEs", "yES", "Yes", "YeS", "YEs", "YES"}

  /** `input(...).strip().lower() in ["yes", "y"]`. */
  predicate Continues(answer: string) {
    Lower(Strip(answer)) in ["yes", "y"]
  }

  lemma LowerCharIs(c: char, d: char)
    requires 'a' <= d <= 'z'
    ensures LowerChar(c) == d <==> c == d || c as int == d as int - 32
  {
  }

  lemma LowerYes(w: string)
    ensures Lower(w) in ["yes", "y"] <==> w in YesAnswers
  {
    if |w| == 1 {
      assert Lower(w) == [LowerChar(w[0])];
      assert w == [w[0]];
      LowerCharIs(w[0], 'y');
    } else if |w| == 3 {
      assert Lower(w) == [LowerChar(w[0]), LowerChar(w[1]), LowerChar(w[2])];
      LowerCharIs(w[0], 'y');
      LowerCharIs(w[1], 'e');
      LowerCharIs(w[2], 's');
      if Lower(w) == "yes" {
        assert w == [w[0], w[1], w[2]];
      }
    }
  }

  /** The loop continues exactly when the answer, without surrounding whitespace, is
      one of the ten spellings of `y`/`yes`; any other answer, the empty one included, exits. */
  lemma ContinuesIff(answer: string)
    ensures Continues(answer) <==> Strip(answer) in YesAnswers
    ensures !Continues("")
  {
    LowerYes(Strip(answer));
    assert Strip("") == [];
  }

  /** One pass of the `while True` loop: `listen()`, the completion call and speech
      for a non-empty transcript, then always the continuation prompt, and `break`
      on any answer other than yes. No movement is ever requested. */
  function MainIteration(outcome: Recognition, reply: string, answer: string): (trace: seq<Effect>)
    ensures |trace| >= 2 && trace[0] == ListenCall && Count(trace, ListenCall) == 1
    ensures Count(trace, Prompt) == 1
    ensures Exit in trace <==> !Continues(answer)
    ensures Exit in trace ==> trace[|trace| - 1] == Exit && Count(trace, Exit) == 1
    ensures AsksCompletion(trace) <==> outcome.Heard? && outcome.transcript != []
    ensures forall i :: 0 <= i < |trace| && trace[i].Complete? ==> outcome == Heard(trace[i].prompt)
    ensures forall i :: 0 <= i < |trace| && trace[i].Speak? ==> trace[i].speech == SpeakPayload(reply)
    ensures forall i :: 0 <= i < |trace| ==> !trace[i].Drive?
    ensures AsksCompletion(trace) ==>
      |trace| >= 4 && trace[1] == Complete(outcome.transcript) && trace[2] == Speak(SpeakPayload(reply))
    ensures !AsksCompletion(trace) ==> trace[1] == Prompt
    ensures Continues(answer) ==> trace[|trace| - 1] == Prompt
    ensures !Continues(answer) ==> trace[|trace| - 2] == Prompt && trace[|trace| - 1] == Exit
    ensures |trace| == 2 + (if AsksCompletion(trace) then 2 else 0) + (if Continues(answer) then 0 else 1)
  {
    var heard := ListenOnce(outcome);
    var asked := if heard.Some? && heard.value != [] then [Complete(heard.value), Speak(SpeakPayload(reply))] else [];
    var leave := if Continues(answer) then [] else [Exit];
    var trace := [ListenCall] + asked + [Prompt] + leave;
    CountAppend([ListenCall] + asked + [Prompt], leave, ListenCall);
    CountAppend([ListenCall] + asked, [Prompt], ListenCall);
    CountAppend([ListenCall], asked, ListenCall);
    CountAppend([ListenCall] + asked + [Prompt], leave, Prompt);
    CountAppend([ListenCall] + asked, [Prompt], Prompt);
    CountAppend([ListenCall], asked, Prompt);
    CountAppend([ListenCall] + asked + [Prompt], leave, Exit);
    CountAbsent([ListenCall] + asked + [Prompt], Exit);
    assert Count(asked, ListenCall) == 0 && Count(asked, Prompt) == 0 by {
      CountAbsent(asked, ListenCall);
      CountAbsent(asked, Prompt);
    }
    trace
  }

  /** A non-empty transcript followed by a yes: the question is asked verbatim,
      its reply spoken, and the prompt shown; nothing else happens. */
  lemma MainIterationHeard(text: string, reply: string, answer: string)
    requires text != [] && Continues(answer)
    ensures MainIteration(Heard(text), reply, answer) == [ListenCall, Complete(text), Speak(SpeakPayload(reply)), Prompt]
  {
  }

  datatype MainTurn = MainTurn(outcome: Recognition, reply: string, answer: string)

  predicate SomeTurnExits(turns: seq<MainTurn>) {
    exists i :: 0 <= i < |turns| && !Continues(turns[i].answer)
  }

  /** The loop over successive turns: it stops after the first turn whose answer
      is not yes, and each turn it runs asks the continuation question once. */
  function MainLoop(turns: seq<MainTurn>): (trace: seq<Effect>)
    ensures Count(trace, Prompt) == Count(trace, ListenCall)
    ensures Exit in trace <==> SomeTurnExits(turns)
    ensures Exit in trace ==> trace[|trace| - 1] == Exit && Count(trace, Exit) == 1
  {
    if turns == [] then []
    else
      var t := turns[0];
      var first := MainIteration(t.outcome, t.reply, t.answer);
      if Continues(t.answer) then
        var rest := MainLoop(turns[1..]);
        CountAppend(first, rest, Prompt);
        CountAppend(first, rest, ListenCall);
        CountAppend(first, rest, Exit);
        CountAbsent(first, Exit);
        assert SomeTurnExits(turns) <==> SomeTurnExits(turns[1..]) by {
          if SomeTurnExits(turns) {
            var i :| 0 <= i < |turns| && !Continues(turns[i].answer);
            assert i > 0 && turns[1..][i - 1] == turns[i];
          }
          if SomeTurnExits(turns[1..]) {
            var i :| 0 <= i < |turns[1..]| && !Continues(turns[1..][i].answer);
            assert turns[i + 1] == turns[1..][i];
          }
        }
        first + rest
      else
        first
  }

  /** How many turns the loop runs: up to and including the first turn answered
      with something other than yes, or all of them. */
  function TurnsRun(turns: seq<MainTurn>): (n: nat)
    ensures n <= |turns|
    ensures forall i :: 0 <= i < n - 1 ==> Continues(turns[i].answer)
    ensures n < |turns| ==> n > 0 && !Continues(turns[n - 1].answer)
  {
    if turns == [] then 0
    else if !Continues(turns[0].answer) then 1
    else
      var n := 1 + TurnsRun(turns[1..]);
      assert forall i :: 1 <= i < n - 1 ==> turns[i] == turns[1..][i - 1];
      n
  }

  /** Turns after the first negative answer are never reached: the trace is that of
      the turns the loop runs. */
  lemma {:induction false} MainLoopStops(turns: seq<MainTurn>)
    ensures MainLoop(turns) == MainLoop(turns[..TurnsRun(turns)])
    decreases |turns|
  {
    if turns != [] {
      if Continues(turns[0].answer) {
        var n := TurnsRun(turns);
        MainLoopStops(turns[1..]);
        assert turns[..n][1..] == turns[1..][..n - 1];
      } else {
        assert turns[..1][0] == turns[0];
        assert turns[..1][1..] == [];
      }
    }
  }

  /** `listen()` is called once for each turn the loop runs. */
  lemma {:induction false} MainLoopListens(turns: seq<MainTurn>)
    ensures Count(MainLoop(turns), ListenCall) == TurnsRun(turns)
    decreases |turns|
  {
    if turns != [] && Continues(turns[0].answer) {
      var t := turns[0];
      MainLoopListens(turns[1..]);
      CountAppend(MainIteration(t.outcome, t.reply, t.answer), MainLoop(turns[1..]), ListenCall);
    }
  }

  /** `main()` of the plain variant: nothing at all happens unless the device probe
      answered 200. */
  function MainMain(probe: DeviceResponse, turns: seq<MainTurn>): (trace: seq<Effect>)
    ensures !CheckConnection(probe) ==> trace == []
    ensures CheckConnection(probe) ==> trace == MainLoop(turns)
    ensures CheckConnection(probe) ==> (Exit in trace <==> SomeTurnExits(turns))
  {
    if !CheckConnection(probe) then [] else MainLoop(turns)
  }

  /** A single turn of the plain loop is exactly that turn's iteration. */
  lemma MainLoopOne(t: MainTurn)
    ensures MainLoop([t]) == MainIteration(t.outcome, t.reply, t.answer)
  {
    assert [t][1..] == [];
    assert MainIteration(t.outcome, t.reply, t.answer) + [] == MainIteration(t.outcome, t.reply, t.answer);
  }

  /** No state carries over between turns: as long as every answer in `a` is yes, the
      trace of `a + b` is that of `a` followed by that of `b`. */
  lemma {:induction false} MainLoopAppend(a: seq<MainTurn>, b: seq<MainTurn>)
    requires forall i :: 0 <= i < |a| ==> Continues(a[i].answer)
    ensures MainLoop(a + b) == MainLoop(a) + MainLoop(b)
    decreases |a|
  {
    if a == [] {
      assert a + b == b;
    } else {
      var first := MainIteration(a[0].outcome, a[0].reply, a[0].answer);
      assert MainLoop(a + b) == first + MainLoop(a[1..] + b) by {
        assert (a + b)[0] == a[0];
        assert (a + b)[1..] == a[1..] + b;
      }
      assert forall i :: 0 <= i < |a[1..]| ==> a[1..][i] == a[i + 1];
      MainLoopAppend(a[1..], b);
      assert first + (MainLoop(a[1..]) + MainLoop(b)) == (first + MainLoop(a[1..])) + MainLoop(b);
    }
  }
}
