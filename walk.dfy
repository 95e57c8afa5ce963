/** The walk `parseBitcoinConf` makes over the lines of a text (src/parse.ts:64-98), for
    any meaning of a single line: a section cursor that starts at `top`, the fragments
    collected so far, and the first failure, tagged with its line. */
module LineWalk {
  import opened Results
  import opened Errors
  import opened Options
  import opened Merge
  import opened Lines

  /** The state between lines: the current section, and the fragments produced so far
      (the configuration is their merge, `MergeAll`). */
  datatype State = State(context: Section, fragments: seq<Config>)

  /** The meaning of one line in the current section. */
  type LineStep = (Section, string) -> Result<LineEffect, Error>

  /** The state after the given lines, or the first failure, tagged with its 1-based line
      number and the line as read. */
  function Walk(step: LineStep, lines: seq<string>): (r: Result<State, Error>)
    ensures r.Err? ==> && r.error.ParseError?
                       && 1 <= r.error.lineNumber <= |lines|
                       && r.error.line == lines[r.error.lineNumber - 1]
  {
    if lines == [] then Ok(State(Top, []))
    else
      var n := |lines|;
      var st :- Walk(step, lines[..n - 1]);
      match step(st.context, lines[n - 1])
      case Err(e) => Err(ParseError(e, n, lines[n - 1]))
      case Ok(Blank) => Ok(st)
      case Ok(Header(s)) => Ok(State(s, st.fragments))
      case Ok(Assignment(f)) => Ok(State(st.context, st.fragments + [f]))
  }

  /** A failure on a line ends the walk: no later line changes the outcome. */
  lemma {:induction false} FailurePersists(step: LineStep, lines: seq<string>, j: nat)
    requires j <= |lines| && Walk(step, lines[..j]).Err?
    ensures Walk(step, lines) == Walk(step, lines[..j])
    decreases |lines| - j
  {
    if j == |lines| {
      assert lines[..j] == lines;
    } else {
      var init := lines[..|lines| - 1];
      assert init[..j] == lines[..j];
      FailurePersists(step, init, j);
      assert Walk(step, lines) == Err(Walk(step, init).error);
    }
  }

  /** The reported failure is that of the first line that fails: every earlier line went
      through, and the reported line fails, with the inner error, in the section the
      earlier lines left current. */
  lemma {:induction false} FailureIsFirstBadLine(step: LineStep, lines: seq<string>)
    requires Walk(step, lines).Err?
    ensures var e := Walk(step, lines).error;
            var k := e.lineNumber;
            && Walk(step, lines[..k - 1]).Ok?
            && step(Walk(step, lines[..k - 1]).value.context, lines[k - 1]) == Err(e.inner)
  {
    var n := |lines|;
    var init := lines[..n - 1];
    var e := Walk(step, lines).error;
    if Walk(step, init).Err? {
      assert e == Walk(step, init).error;
      FailureIsFirstBadLine(step, init);
      var k := e.lineNumber;
      assert init[..k - 1] == lines[..k - 1];
      assert init[k - 1] == lines[k - 1];
    } else {
      var effect := step(Walk(step, init).value.context, lines[n - 1]);
      assert effect.Err?;
      assert e == ParseError(effect.error, n, lines[n - 1]);
    }
  }

  /** Lines that are blank in every section leave the walk where it started. */
  lemma {:induction false} BlankLinesAreSkipped(step: LineStep, lines: seq<string>)
    requires forall c, k :: 0 <= k < |lines| ==> step(c, lines[k]) == Ok(Blank)
    ensures Walk(step, lines) == Ok(State(Top, []))
  {
    if lines != [] {
      BlankLinesAreSkipped(step, lines[..|lines| - 1]);
    }
  }
}
