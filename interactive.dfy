/** The read loop of `run_nn_on_input` in src/main.rs: what it does with each
    `read_line` result. Standard input is the sequence of lines still to be
    read; scoring a line with the network and printing it are left out, a
    session only records the lines that would be scored. */
module Interactive {
  import opened Utf8

  /** What the loop does with one line. */
  datatype Action = Skip | Exit | Rate(message: string)

  /** `String::pop`: drop the last character, whatever it is. */
  function Pop(s: string): (r: string)
    ensures s != [] ==> |r| == |s| - 1 && s == r + [s[|s| - 1]]
    ensures s == [] ==> r == []
  {
    if s == [] then s else s[..|s| - 1]
  }

  /** The decision for a line of which `read` bytes were read, as written:
      nothing read means `continue`, otherwise the last character is dropped
      and `exit` stops the loop. */
  function LineAction(read: nat, inputLine: string): (a: Action)
    ensures read == 0 ==> a == Skip
    ensures read > 0 ==> (a == Exit <==> Pop(inputLine) == "exit")
    ensures read > 0 && Pop(inputLine) != "exit" ==> a == Rate(Pop(inputLine))
  {
    if read == 0 then Skip
    else
      var line := Pop(inputLine);
      if line == "exit" then Exit else Rate(line)
  }

  /** `exit` followed by any one character stops the loop. */
  lemma ExitAnyTerminator(read: nat, c: char)
    requires read > 0
    ensures LineAction(read, "exit" + [c]) == Exit
  {
    assert Pop("exit" + [c]) == "exit";
  }

  /** A last line `exit` with no newline loses its `t` and is rated, and so is
      `exit` ended by a carriage return and a newline. */
  lemma ExitNeedsOneTerminator(read: nat)
    requires read > 0
    ensures LineAction(read, "exit") == Rate("exi")
    ensures LineAction(read, "exit\r\n") == Rate("exit\r")
  {
    assert Pop("exit") == "exi";
    assert Pop("exit\r\n") == "exit\r";
  }

  /** A line as `read_line` delivers it before end of input: never empty, since
      it holds at least the newline or the last characters of the input, and
      with a newline at most as its last character. */
  type Line = s: string | s != [] && forall i :: 0 <= i < |s| - 1 ==> s[i] != '\n' witness "\n"

  /** What one `read_line` gives: the byte count, the line, and the lines still
      to be read. */
  datatype LineRead = LineRead(read: nat, line: string, rest: seq<Line>)

  /** `read_line` on standard input, given as the lines still to be read: at end
      of input it reads nothing and leaves the line empty. */
  function ReadLine(input: seq<Line>): (r: LineRead)
    ensures r.read == 0 <==> input == []
    ensures input != [] ==> r.line == input[0] && r.rest == input[1..]
  {
    if input == [] then LineRead(0, "", [])
    else LineRead(|Encode(input[0])|, input[0], input[1..])
  }

  /** A blank line typed by the user is one byte, the newline, so it is not
      skipped: it is rated as the empty message. */
  lemma BlankLineIsRated(input: seq<Line>)
    requires input != [] && input[0] == "\n"
    ensures var r := ReadLine(input); LineAction(r.read, r.line) == Rate("")
  {
    var r := ReadLine(input);
    assert Pop(r.line) == "";
  }

  /** A session: the lines rated, and whether the loop stopped. */
  datatype Session = Stopped(rated: seq<string>) | Running(rated: seq<string>)

  function Then(line: string, s: Session): Session {
    match s
    case Stopped(r) => Stopped([line] + r)
    case Running(r) => Running([line] + r)
  }

  /** The loop as written, run for at most `fuel` iterations. */
  function RunAsWritten(input: seq<Line>, fuel: nat): (s: Session)
    ensures |s.rated| <= |input| && |s.rated| <= fuel
    decreases fuel
  {
    if fuel == 0 then Running([])
    else
      var LineRead(read, line, rest) := ReadLine(input);
      match LineAction(read, line)
      case Skip => RunAsWritten(rest, fuel - 1)
      case Exit => Stopped([])
      case Rate(m) => Then(m, RunAsWritten(rest, fuel - 1))
  }

  /** Once the input is exhausted, `read_line` returns 0 on every call, so the
      loop as written never stops: however long it runs, it is still running. */
  lemma {:induction false} EndOfInputNeverStops(fuel: nat)
    ensures RunAsWritten([], fuel) == Running([])
  {
    if fuel > 0 {
      EndOfInputNeverStops(fuel - 1);
    }
  }

  /** The input holds a line that stops the loop. */
  predicate HasExitLine(input: seq<Line>)
    decreases |input|
  {
    input != [] &&
    var LineRead(read, line, rest) := ReadLine(input);
    Pop(line) == "exit" || HasExitLine(rest)
  }

  /** Without an `exit` line the loop as written never stops. */
  lemma {:induction false} NoExitNeverStops(input: seq<Line>, fuel: nat)
    requires !HasExitLine(input)
    ensures RunAsWritten(input, fuel).Running?
    decreases fuel
  {
    if fuel > 0 {
      var LineRead(read, line, rest) := ReadLine(input);
      if input == [] {
        EndOfInputNeverStops(fuel);
      } else {
        NoExitNeverStops(rest, fuel - 1);
      }
    }
  }

  /** The decision with end of input told apart: `read_line` returning 0 means
      the input is exhausted, so the loop stops. */
  function LineActionCorrected(read: nat, inputLine: string): (a: Action)
    ensures read == 0 ==> a == Exit
    ensures read > 0 ==> a == LineAction(read, inputLine)
  {
    if read == 0 then Exit else LineAction(read, inputLine)
  }

  /** The corrected loop; it needs no fuel, since every iteration consumes input
      or stops. */
  function RunCorrected(input: seq<Line>): (s: Session)
    ensures s.Stopped?
    decreases |input|
  {
    var LineRead(read, line, rest) := ReadLine(input);
    match LineActionCorrected(read, line)
    case Skip => Stopped([])
    case Exit => Stopped([])
    case Rate(m) => Then(m, RunCorrected(rest))
  }

  /** Where the loop as written stops on an `exit` line, the corrected loop does
      exactly the same. */
  lemma {:induction false} CorrectedAgreesOnExit(input: seq<Line>)
    requires HasExitLine(input)
    ensures RunAsWritten(input, |input|) == RunCorrected(input)
    decreases |input|
  {
    var r := ReadLine(input);
    if Pop(r.line) != "exit" {
      assert HasExitLine(r.rest);
      CorrectedAgreesOnExit(r.rest);
      AsWrittenFuel(r.rest, |r.rest|, |input| - 1);
      RatedLineStep(input, |input|);
    }
  }

  /** One iteration on a line that is rated, in both loops. */
  lemma RatedLineStep(input: seq<Line>, fuel: nat)
    requires input != [] && fuel > 0 && Pop(ReadLine(input).line) != "exit"
    ensures var r := ReadLine(input);
      RunAsWritten(input, fuel) == Then(Pop(r.line), RunAsWritten(r.rest, fuel - 1)) &&
      RunCorrected(input) == Then(Pop(r.line), RunCorrected(r.rest))
  {
  }

  /** More fuel does not change a session that has stopped. */
  lemma {:induction false} AsWrittenFuel(input: seq<Line>, fuel: nat, more: nat)
    requires fuel <= more
    requires RunAsWritten(input, fuel).Stopped?
    ensures RunAsWritten(input, more) == RunAsWritten(input, fuel)
    decreases fuel
  {
    var LineRead(read, line, rest) := ReadLine(input);
    if LineAction(read, line) != Exit {
      AsWrittenFuel(rest, fuel - 1, more - 1);
    }
  }
}
