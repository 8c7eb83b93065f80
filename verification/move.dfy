/**
 `misty_move` of the wake-word variant: a transcript of the form
 `move <number> seconds ...` drives the robot forward, sleeps for the
 number of seconds and stops it. The result is the function's boolean
 together with the drive requests it posted, in order.
 */
module Move {
  import opened Wrappers
  import opened PyStr
  import opened Tokens
  import opened Numeral
  import opened Robot

  datatype MoveResult = MoveResult(moved: bool, posts: seq<DriveRequest>)

  /** Within the range `time.sleep` can represent (a magnitude below about 9.2e9
      seconds, beyond which it raises `OverflowError` instead), it raises `ValueError`
      exactly for a negative length. */
  predicate SleepRejects(d: real) {
    d < 0.0
  }

  /** The token-level grammar: at least three tokens, `move` first and `seconds` third. */
  predicate MoveShape(words: seq<string>) {
    |words| >= 3 && words[0] == "move" && words[2] == "seconds"
  }

  /** `misty_move(command)`. The number is parsed before anything is posted; the
      forward request is posted before the sleep, so a sleep that raises leaves
      the forward request posted and the stop request unsent; the `ValueError`
      of both the parse and the sleep is caught and gives `False`.
      A stop is only ever sent after a forward request, and success means both were sent. */
  function MistyMove(command: string): (r: MoveResult)
    ensures r.posts == [] || r.posts == [Forward] || r.posts == [Forward, Halt]
    ensures r.moved <==> r.posts == [Forward, Halt]
  {
    var words := Split(command);
    if MoveShape(words) then
      match ParseNum(words[1])
      case None => MoveResult(false, [])
      case Some(duration) =>
        var posted := [Forward];
        if SleepRejects(duration) then MoveResult(false, posted)
        else MoveResult(true, posted + [Halt])
    else
      MoveResult(false, [])
  }

  /** What the robot was last told to do after the posts, starting from `before`. */
  function LastDrive(posts: seq<DriveRequest>, before: DriveRequest): DriveRequest {
    if posts == [] then before else posts[|posts| - 1]
  }

  /** The expected outcome for a parsed (or unparsable) duration token. */
  function Expected(duration: Option<real>): MoveResult {
    match duration
    case None => MoveResult(false, [])
    case Some(d) => if d < 0.0 then MoveResult(false, [Forward]) else MoveResult(true, [Forward, Halt])
  }

  /** The outcome by tokens: wrong shape means no request at all (matching is exact and
      case-sensitive); an unparsable number means no request either; a non-negative number
      drives and stops; a negative one drives and never stops. */
  lemma MoveByTokens(command: string)
    ensures !MoveShape(Split(command)) ==> MistyMove(command) == MoveResult(false, [])
    ensures MoveShape(Split(command)) ==> MistyMove(command) == Expected(ParseNum(Split(command)[1]))
  {
  }

  /** Starting from a stopped robot, after `misty_move` the robot is left moving exactly
      when the duration parsed to a negative number; in every other case it is stopped
      again or was never told to move. */
  lemma MoveLeavesRobotDriving(command: string)
    ensures LastDrive(MistyMove(command).posts, Halt) == Forward
        <==> MoveShape(Split(command)) && ParseNum(Split(command)[1]).Some? && ParseNum(Split(command)[1]).value < 0.0
  {
  }

  /** A movement phrase written out as characters: optional leading whitespace, `move`,
      whitespace, the number token, whitespace, `seconds`, and anything that starts
      with whitespace (or nothing). */
  predicate PhraseParts(lead: string, gap1: string, number: string, gap2: string, tail: string) {
    && AllSpace(lead)
    && AllSpace(gap1) && gap1 != []
    && IsToken(number)
    && AllSpace(gap2) && gap2 != []
    && (tail == [] || IsSpace(tail[0]))
  }

  function Phrase(lead: string, gap1: string, number: string, gap2: string, tail: string): string {
    lead + ("move" + (gap1 + (number + (gap2 + ("seconds" + tail)))))
  }

  lemma SplitPhrase(lead: string, gap1: string, number: string, gap2: string, tail: string)
    requires PhraseParts(lead, gap1, number, gap2, tail)
    ensures Split(Phrase(lead, gap1, number, gap2, tail)) == ["move", number, "seconds"] + Split(tail)
  {
    var s3 := "seconds" + tail;
    var s2 := gap2 + s3;
    var s1 := number + s2;
    var s0 := gap1 + s1;
    assert IsToken("seconds") && IsToken("move");
    assert Split(s2) == ["seconds"] + Split(tail) by {
      SplitToken("seconds", tail);
      SplitAfterSpaces(gap2, s3);
    }
    assert Split(s0) == [number] + Split(s2) by {
      SplitToken(number, s2);
      SplitAfterSpaces(gap1, s1);
    }
    assert Split(Phrase(lead, gap1, number, gap2, tail)) == ["move"] + Split(s0) by {
      SplitToken("move", s0);
      SplitAfterSpaces(lead, "move" + s0);
    }
    assert ["move"] + ([number] + (["seconds"] + Split(tail))) == ["move", number, "seconds"] + Split(tail);
  }

  /** Every movement phrase is interpreted by its number alone: whatever follows
      `seconds` (further tokens included) and however wide the whitespace gaps are. */
  lemma MoveOfPhrase(lead: string, gap1: string, number: string, gap2: string, tail: string)
    requires PhraseParts(lead, gap1, number, gap2, tail)
    ensures MistyMove(Phrase(lead, gap1, number, gap2, tail)) == Expected(ParseNum(number))
  {
    SplitPhrase(lead, gap1, number, gap2, tail);
  }

  /** Conversely, a command that posts anything is a movement phrase whose number parses. */
  lemma PhraseOfMove(command: string) returns (lead: string, gap1: string, number: string, gap2: string, tail: string)
    requires MistyMove(command).posts != []
    ensures PhraseParts(lead, gap1, number, gap2, tail)
    ensures command == Phrase(lead, gap1, number, gap2, tail)
    ensures ParseNum(number).Some?
    ensures MistyMove(command).moved <==> ParseNum(number).value >= 0.0
  {
    var words := Split(command);
    var rest0, rest1, rest2;
    lead, rest0 := SplitHead(command);
    gap1, rest1 := SplitHead(rest0);
    gap2, rest2 := SplitHead(rest1);
    number := words[1];
    tail := rest2;
    assert gap1 != [] by {
      assert rest0[0] == (gap1 + (number + rest1))[0];
    }
    assert gap2 != [] by {
      assert rest1[0] == (gap2 + ("seconds" + rest2))[0];
    }
  }
}
