# Misty voice loop — a Dafny model

This project models the decision logic of a voice-controlled loop for the
Misty robot. It has two variants.

- **Plain variant** (`Misty/main.py`):
  - listens once per turn;
  - forwards any non-empty transcript to a language-model completion service and has the robot speak the reply;
  - asks on stdin whether to go on.
- **Wake-word variant** (`Misty/alternate_main.py`):
  - keeps listening until a transcript contains "hey misty" and strips it out;
  - tries the fixed movement grammar `move <number> seconds`, which drives forward, sleeps and stops;
  - otherwise hands the text to the completion service and speaks the reply.

The model replaces the network, the microphone and the clock with abstract outcomes:
- the recogniser's result: a transcript, "could not understand" or "service unreachable";
- the device probe's HTTP status, or a request exception;
- the completion service's reply, as a plain input;
- the text typed at the continuation prompt.

Each loop iteration is a pure function that returns the trace of effects it causes. The effects are:
- `ListenCall`;
- `Drive(request)` for `POST /api/drive`;
- `Complete(prompt)`;
- `Speak(request)` for `POST /api/tts/speak`;
- `Prompt`;
- `Exit`.

`misty_move` returns its boolean together with the drive requests it posted.

Modules:
- `Wrappers`: `Option`.
- `PyStr`: Python's `strip()`, `lower()`, `in` and `replace(p, "")` on strings.
- `Tokens`: Python's argument-less `split()` and `" ".join`.
- `Numeral`: the decimal literals accepted as a duration.
- `Robot`: request bodies and the connection check.
- `Move`: `misty_move`.
- `Listen`: both `listen` functions.
- `Conversation`: both `main` loops.
- `Scenarios`: whole-utterance examples derived from the general lemmas.

## Model

| member | source | states |
|---|---|---|
| PyStr.Strip | Misty/alternate_main.py:53 | the result of `strip()` never begins or ends with whitespace and is no longer than its input |
| PyStr.StripParts | Misty/alternate_main.py:53 | `strip()` removes only whitespace, and only from the two ends: the input is leading whitespace + result + trailing whitespace |
| PyStr.StripPadded | Misty/main.py:81 | conversely, stripping whitespace from around a word with non-blank ends gives that word, so the two lemmas together determine `strip()` |
| PyStr.StripEmptyIff | Misty/alternate_main.py:53-54 | `strip()` yields the empty string exactly when the input is all whitespace |
| PyStr.LowerIdempotent | Misty/alternate_main.py:49 | lower-casing twice equals lower-casing once, and no capital letter remains |
| PyStr.ContainsIff | Misty/alternate_main.py:52 | the `in` substring test holds exactly when some window of the text equals the pattern |
| PyStr.RemoveAllFixedIff | Misty/alternate_main.py:53 | `replace(p, "")` leaves the text unchanged exactly when `p` does not occur in it |
| PyStr.RemoveAllShrinks | Misty/alternate_main.py:53 | when `p` occurs, the result is at least `p`'s length shorter |
| PyStr.RemoveAllLeftmost | Misty/alternate_main.py:53 | the pass removes the leftmost occurrence first: text before it is kept and scanning resumes right after it |
| Tokens.Split | Misty/alternate_main.py:65 | `split()` yields only non-empty tokens free of whitespace |
| Tokens.SplitJoin | Misty/alternate_main.py:65 | `split()` recovers any list of well-formed tokens joined by single spaces |
| Tokens.SplitHead | Misty/alternate_main.py:65 | the first token is preceded only by whitespace and followed by whitespace or the end; the other tokens come from the remainder |
| Tokens.SplitBlank | Misty/alternate_main.py:65 | there are no tokens exactly when the text is all whitespace; with `SplitHead` this fixes the tokens of every string |
| Numeral.ParseNum | Misty/alternate_main.py:70 | an accepted duration is non-empty and uses only digits, point and sign; a negative value needs a leading minus; without one the value is non-negative, and with one it is non-positive |
| Numeral.ParsePoint | Misty/alternate_main.py:70 | a literal `whole.frac` with at least one digit on either side of the point is accepted, and its value is the whole part plus the fraction's digits counted in tenths, hundredths and so on |
| Numeral.ParseSigned | Misty/alternate_main.py:70 | a leading `+` leaves the value of an unsigned literal unchanged and a leading `-` negates it; a literal that is rejected stays rejected with either sign |
| Numeral.ParseShowNat | Misty/alternate_main.py:70 | parsing the decimal digits of `n` gives `n`, and with a leading minus gives `-n` |
| Numeral.ParseShowPoint | Misty/alternate_main.py:70 | parsing `str(n)`, a point and any digit string `f` gives `n` plus the fraction `0.f`, and with a leading minus its negation |
| Numeral.ParseDigits | Misty/alternate_main.py:70 | any non-empty digit string, leading zeros included, is accepted and read in base ten |
| Numeral.ParseNumForm | Misty/alternate_main.py:70 | conversely, every accepted duration is an optional `+` or `-`, then digits with at most one point and at least one digit; its value is the whole part plus the fraction, negated exactly for `-`; anything else, such as `1.2.3`, is rejected |
| Scenarios.RejectedDurations | Misty/alternate_main.py:70 | `float()` rejects `1.2.3`, `.`, `-`, `+-3` and `3-` |
| Robot.CheckConnection | Misty/main.py:15-28 | the robot counts as reachable exactly when the device endpoint answered 200; other statuses and request exceptions give false |
| Robot.SpeakPayload | Misty/main.py:59-62 | the speak body carries the given text unchanged and always sets `flush` |
| Move.MistyMove | Misty/alternate_main.py:63-87 | the posts are none, a forward drive, or a forward drive then a stop; success holds exactly when both were posted, so a stop is never sent alone |
| Move.MoveByTokens | Misty/alternate_main.py:65-87 | fewer than 3 tokens, or token 0 not exactly `move`, or token 2 not exactly `seconds`, gives false with no post; otherwise the duration token decides: unparsable gives false with no post, non-negative gives forward then stop and true, negative gives forward only and false (for durations within the sleep's range) |
| Move.MoveLeavesRobotDriving | Misty/alternate_main.py:75-86 | starting from a stopped robot, the last request leaves it driving exactly when the duration parsed to a negative number, because the sleep raises before the stop is posted |
| Move.MoveOfPhrase | Misty/alternate_main.py:65-83 | any string of the form blanks, `move`, blanks, number, blanks, `seconds`, then nothing or whitespace-led text, is judged by the number alone: trailing words and gap widths never matter |
| Move.PhraseOfMove | Misty/alternate_main.py:65-87 | conversely, any command that posts a request has that form with a parsable number, and it succeeds exactly when the number is non-negative |
| Listen.ListenOnce | Misty/main.py:38-47 | one attempt: the transcript in its original case, or nothing on either recogniser error |
| Listen.WakeCommand | Misty/alternate_main.py:53-54 | the command after removing the wake word is non-empty and has no whitespace at either end; there is none exactly when the removal leaves only whitespace |
| Listen.WakeStep | Misty/alternate_main.py:48-61 | "could not understand" means listen again; "service unreachable" returns nothing; a transcript returns exactly when its lower-cased text contains `hey misty`, and then returns the stripped remainder |
| Listen.WakeStepTrimmed | Misty/alternate_main.py:53-54 | any command the wake-word listener returns is non-empty with no whitespace at either end |
| Listen.WakeStepSingle | Misty/alternate_main.py:52-54 | with one occurrence of the wake word, the command is the text around it joined and stripped, or nothing if that is blank |
| Listen.WakeWordCanReform | Misty/alternate_main.py:53 | one removal pass can rebuild the wake word: `hehey mistyy misty` yields the command `hey misty` |
| Listen.WakeListen | Misty/alternate_main.py:43-61 | over a run of recogniser outcomes, the listener returns at the first outcome that returns, with every earlier one a "listen again"; it is still listening exactly when every outcome says listen again |
| Conversation.AltIteration | Misty/alternate_main.py:110-116 | an absent or empty command causes nothing; otherwise completion is asked exactly when the move failed, with exactly the command text, and its reply is spoken last with `flush` set; the iteration never prompts or exits |
| Conversation.AltIterationMoves | Misty/alternate_main.py:112-116 | a successful move yields exactly the forward and stop requests; a failed move yields its posts, then completion and speech |
| Conversation.AltLoop | Misty/alternate_main.py:109-116 | the loop calls `listen()` once per turn and never prompts or exits |
| Conversation.AltLoopOne | Misty/alternate_main.py:109-116 | one turn of the loop is a `listen()` call followed by that turn's move attempt, completion and speech |
| Conversation.AltLoopAppend | Misty/alternate_main.py:109-116 | nothing carries over between turns: the trace of consecutive runs of turns is their traces one after the other |
| Conversation.AltMain | Misty/alternate_main.py:104-116 | when the probe fails nothing happens at all; otherwise the trace is that of the loop over the turns, every turn listens, and the loop never exits |
| Conversation.ContinuesIff | Misty/main.py:81-82 | the loop goes on exactly when the stripped answer is one of the ten letter-case spellings of `y` and `yes`; an empty answer exits |
| Conversation.MainIteration | Misty/main.py:75-84 | each iteration listens once and prompts once, even when nothing was heard; completion happens exactly for a non-empty transcript, with that exact text, right after the listen and right before the reply is spoken with `flush`; the prompt follows, and is the last effect or is followed only by the exit, which happens exactly on a non-yes answer; no drive request is ever made |
| Conversation.MainIterationHeard | Misty/main.py:75-82 | a non-empty transcript answered with yes gives exactly listen, completion of that text, speech of the reply, prompt |
| Conversation.MainLoop | Misty/main.py:74-84 | every iteration prompts once; the trace exits exactly when some turn's answer is not yes, and then only once and as its final effect |
| Conversation.TurnsRun | Misty/main.py:81-84 | the loop runs every turn up to and including the first one answered with something other than yes, or all turns when every answer is yes |
| Conversation.MainLoopStops | Misty/main.py:81-84 | turns after the first non-yes answer are never reached: the trace equals that of the turns run |
| Conversation.MainLoopListens | Misty/main.py:74-75 | `listen()` is called exactly once per turn run |
| Conversation.MainLoopOne | Misty/main.py:74-84 | one turn of the loop is exactly that turn's iteration: listen, completion and speech, prompt, and the exit on a non-yes answer |
| Conversation.MainLoopAppend | Misty/main.py:74-84 | nothing carries over between turns: while every answer is yes, the trace of consecutive runs of turns is their traces one after the other |
| Conversation.MainMain | Misty/main.py:69-84 | when the probe fails nothing happens at all; otherwise the trace is that of the loop over the turns, and the run exits exactly when some answer is not yes |
| Scenarios.WakeWordStripped | Misty/alternate_main.py:49-54 | the utterance `hey misty move 3 seconds` makes the listener return `move 3 seconds` after one attempt |
| Scenarios.MoveThreeSeconds | Misty/alternate_main.py:68-83 | `move 3 seconds` drives forward and stops, and the iteration involves neither completion nor speech |
| Scenarios.WeatherScenarioAlt | Misty/alternate_main.py:111-116 | `what is the weather` is not a move, goes verbatim to completion, and the reply is spoken with `flush` set |
| Scenarios.WeatherScenarioMain | Misty/main.py:75-82 | `what is the weather` goes verbatim to completion, the reply is spoken with `flush` set, and the answer `yes` leads to the prompt without exiting |
| Scenarios.CapitalMoveScenario | Misty/alternate_main.py:68 | `misty_move` called directly with `Move 3 seconds` posts nothing, because its keyword matching is case-sensitive; in the wake-word loop its input has already been lower-cased at alternate_main.py:49, so a spoken `Move` does move |
| Scenarios.TrailingWordsScenario | Misty/alternate_main.py:68 | `move 3 seconds please` moves just like `move 3 seconds` |
| Scenarios.NegativeScenario | Misty/alternate_main.py:75-86 | `move -2 seconds` posts the forward drive, never stops, and reports failure |
| Scenarios.WordNumberScenario | Misty/alternate_main.py:68-86 | `move three seconds` posts nothing and reports failure |

## Behaviour worth noting

The model follows the code in these places, where the behaviour is easy to overlook.

- **Durations.**
  - A zero duration is accepted: the robot is told to drive, the sleep returns at once, and it is told to stop.
  - For a negative duration, the code posts the forward drive before `time.sleep` raises `ValueError`. The `except ValueError` then catches the error, so the robot keeps driving. See `Move.MoveLeavesRobotDriving`.
- **Wake word.** The phrase is matched anywhere in the transcript, not only at its start. Every non-overlapping occurrence is deleted in a single pass, and that pass can rebuild the phrase: see `Listen.WakeWordCanReform`.
- **Speak result.** Neither variant's `misty_speak` returns anything. The plain variant only prints the status.

## Left out

- Microphone capture, ambient-noise calibration and the recognition service: only their outcome is modelled, as `Listen.Recognition`.
- The completion service call (`get_openai_response`): its reply is an input, and its exceptions, which would end the program, are not modelled.
- HTTP details: the requests' URLs, headers, timeouts and response bodies are not modelled.
- Request exceptions: exceptions raised by the drive and speak posts, which neither variant catches, are not modelled.
- Console output: the status printing in the plain variant's `misty_speak` and all other `print` output are not modelled.
- Configuration: `.env` loading, the API key and the robot's address are not modelled.
- Timing: the real duration of `time.sleep` is not modelled. Only its sign check is kept, in `Move.SleepRejects`.
- A process killed mid-sleep, which leaves the robot driving, is not modelled.
- Unbounded loops: the `while True` loops and the wake-word listening loop run over finite sequences of turns and outcomes. `Listen.StillListening` stands for a listener that has not yet returned.
- Numeral.ParseNum: accepts only an optional sign followed by digits with at most one decimal point. It rejects what Python's `float()` would also accept: exponents, `inf`, `nan`, digit-group underscores, surrounding whitespace and non-ASCII decimal digits (for example `float("３")` is `3.0`).
- Numeral.ParseNum: values are exact rationals, so floating-point rounding is not modelled. One consequence: a negative literal small enough to round to `-0.0` is rejected by the model but not by `time.sleep`.
- Move.MistyMove: durations whose magnitude is beyond the sleep's range (about 9.2e9 seconds, including `inf`) make `time.sleep` raise `OverflowError`, which `except ValueError` does not catch, so the forward drive stays posted and the program ends. The model treats such a duration like any other by its sign. `nan` durations are not modelled either.
- End of input: `input()` raising `EOFError` at the continuation prompt, which ends the plain variant, is not modelled.
- PyStr.IsSpace: covers only the ASCII characters Python treats as whitespace (space, 9-13 and 28-31). Non-ASCII whitespace is not modelled.
- PyStr.Lower: maps only `A`-`Z`. Non-ASCII case mapping is not modelled. This does not change the continuation check, since no other character lowercases to `y`, `e` or `s`.
