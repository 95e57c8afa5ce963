/** `parseBitcoinConf` (src/parse.ts:64-98): the walk with the meaning of a line that
    `createParseLine` gives, and the merge of the fragments it collects. */
module Parse {
  import opened Results
  import opened Text
  import opened Errors
  import opened Options
  import opened Values
  import opened Merge
  import opened Lines
  import opened LineWalk

  /** The meaning of a line in `parseBitcoinConf`, over the given option catalog. */
  function Interpreter(catalog: Catalog): LineStep
  {
    (context, line) => InterpretLine(catalog, context, line)
  }

  /** The state after the given lines, or the first failure, tagged with its 1-based line
      number and the line as read: the walk, with each line read by `InterpretLine`. */
  function Run(catalog: Catalog, lines: seq<string>): Result<State, Error>
  {
    if lines == [] then Ok(State(Top, []))
    else
      var n := |lines|;
      var st :- Run(catalog, lines[..n - 1]);
      match InterpretLine(catalog, st.context, lines[n - 1])
      case Err(e) => Err(ParseError(e, n, lines[n - 1]))
      case Ok(Blank) => Ok(st)
      case Ok(Header(s)) => Ok(State(s, st.fragments))
      case Ok(Assignment(f)) => Ok(State(st.context, st.fragments + [f]))
  }

  /** `Run` is the generic walk over the lines, with `InterpretLine` as the step. */
  lemma {:induction false} RunIsWalk(catalog: Catalog, lines: seq<string>)
    ensures Run(catalog, lines) == Walk(Interpreter(catalog), lines)
  {
    if lines != [] {
      var init := lines[..|lines| - 1];
      RunIsWalk(catalog, init);
      if Run(catalog, init).Ok? {
        var st := Run(catalog, init).value;
        assert Interpreter(catalog)(st.context, lines[|lines| - 1])
               == InterpretLine(catalog, st.context, lines[|lines| - 1]);
      }
    }
  }

  /** A failed parse names a line of the text: its 1-based number, and the line as read. */
  lemma RunErrorLocates(catalog: Catalog, lines: seq<string>)
    ensures var r := Run(catalog, lines);
            r.Err? ==> && r.error.ParseError?
                       && 1 <= r.error.lineNumber <= |lines|
                       && r.error.line == lines[r.error.lineNumber - 1]
  {
    RunIsWalk(catalog, lines);
  }

  /** A failure on a line ends the parse: no later line changes the outcome. */
  lemma RunFailurePersists(catalog: Catalog, lines: seq<string>, j: nat)
    requires j <= |lines| && Run(catalog, lines[..j]).Err?
    ensures Run(catalog, lines) == Run(catalog, lines[..j])
  {
    RunIsWalk(catalog, lines);
    RunIsWalk(catalog, lines[..j]);
    FailurePersists(Interpreter(catalog), lines, j);
  }

  /** The line a failed parse reports is the first that fails: every earlier line went
      through, and the reported one fails with the inner error in the section the earlier
      lines left current. */
  lemma RunFailureIsFirstBadLine(catalog: Catalog, lines: seq<string>)
    requires Run(catalog, lines).Err?
    ensures var e := Run(catalog, lines).error;
            && e.ParseError? && 1 <= e.lineNumber <= |lines|
            && Run(catalog, lines[..e.lineNumber - 1]).Ok?
            && InterpretLine(catalog, Run(catalog, lines[..e.lineNumber - 1]).value.context, lines[e.lineNumber - 1])
               == Err(e.inner)
  {
    RunIsWalk(catalog, lines);
    FailureIsFirstBadLine(Interpreter(catalog), lines);
    var k := Run(catalog, lines).error.lineNumber;
    RunIsWalk(catalog, lines[..k - 1]);
  }

  /** Every fragment the walk collects is that of one assignment line. */
  lemma {:induction false} RunFragments(catalog: Catalog, lines: seq<string>)
    requires Run(catalog, lines).Ok?
    ensures var fs := Run(catalog, lines).value.fragments;
            forall k :: 0 <= k < |fs| ==> LineFragment(catalog, fs[k])
  {
    if lines != [] {
      var init := lines[..|lines| - 1];
      var line := lines[|lines| - 1];
      assert Run(catalog, init).Ok?;
      RunFragments(catalog, init);
      var st := Run(catalog, init).value;
      var effect := InterpretLine(catalog, st.context, line);
      assert effect.Ok?;
      if effect.value.Assignment? {
        ParseLineFragment(catalog, st.context, Content(line));
        assert Run(catalog, lines).value.fragments == st.fragments + [effect.value.fragment];
      } else {
        assert Run(catalog, lines).value.fragments == st.fragments;
      }
    }
  }

  /** The parse of a whole text: its lines run from the top context, then the fragments
      merged in order. */
  function ParseText(catalog: Catalog, str: string): Result<Config, Error>
  {
    match Run(catalog, SplitLines(str))
    case Err(e) => Err(e)
    case Ok(st) => Ok(MergeAll(st.fragments))
  }

  /** Every value a parse yields is that of a catalog option, of the option's type. */
  lemma ParseTextWellTyped(catalog: Catalog, str: string)
    ensures ParseText(catalog, str).Ok? ==> WellTyped(catalog, ParseText(catalog, str).value)
  {
    if Run(catalog, SplitLines(str)).Ok? {
      RunFragments(catalog, SplitLines(str));
      MergeAllWellTyped(catalog, Run(catalog, SplitLines(str)).value.fragments);
    }
  }

  /** A blank or comment-only line leaves the state as it was. */
  lemma BlankLineChangesNothing(catalog: Catalog, lines: seq<string>, line: string)
    requires Content(line) == []
    ensures Run(catalog, lines + [line]) == Run(catalog, lines)
  {
    assert (lines + [line])[..|lines|] == lines;
  }

  /** A header line switches the section to the network it names, keeping what was
      collected, or fails, tagged with its line, when it names no network. */
  lemma HeaderLine(catalog: Catalog, lines: seq<string>, line: string)
    requires Run(catalog, lines).Ok? && IsHeader(Content(line))
    ensures var l := Content(line);
            var net := CastToNetworkName(l[1..|l| - 1]);
            Run(catalog, lines + [line])
            == if net.Ok? then Ok(State(net.value, Run(catalog, lines).value.fragments))
               else Err(ParseError(net.error, |lines| + 1, line))
  {
    assert (lines + [line])[..|lines|] == lines;
  }

  /** A header switches the section for the lines after it and adds nothing. */
  lemma HeaderSwitchesContext(catalog: Catalog, lines: seq<string>, line: string, s: Section)
    requires Run(catalog, lines).Ok? && s != Top
    requires Content(line) == "[" + SectionName(s) + "]"
    ensures Run(catalog, lines + [line])
            == Ok(State(s, Run(catalog, lines).value.fragments))
  {
    var l := Content(line);
    assert l[1..|l| - 1] == SectionName(s);
    NetworkNameRoundTrip(s);
    HeaderLine(catalog, lines, line);
  }

  /** Any other non-blank line is parsed in the current section: its fragment is collected,
      or the walk fails, tagged with the line. */
  lemma AssignmentLine(catalog: Catalog, lines: seq<string>, line: string)
    requires Run(catalog, lines).Ok? && Content(line) != [] && !IsHeader(Content(line))
    ensures var st := Run(catalog, lines).value;
            var f := ParseLine(catalog, st.context, Content(line));
            Run(catalog, lines + [line])
            == if f.Ok? then Ok(State(st.context, st.fragments + [f.value]))
               else Err(ParseError(f.error, |lines| + 1, line))
  {
    assert (lines + [line])[..|lines|] == lines;
  }

  /** A text made only of blank and comment lines parses to the empty configuration. */
  lemma BlankTextIsEmpty(catalog: Catalog, lines: seq<string>)
    requires forall k :: 0 <= k < |lines| ==> Content(lines[k]) == []
    ensures Run(catalog, lines) == Ok(State(Top, []))
  {
    RunIsWalk(catalog, lines);
    forall c, k | 0 <= k < |lines| ensures Interpreter(catalog)(c, lines[k]) == Ok(Blank) {
      assert Content(lines[k]) == [];
    }
    BlankLinesAreSkipped(Interpreter(catalog), lines);
  }

  /** A value-typed (not list) option keeps the value of the first line that assigns it,
      in each section. */
  lemma ScalarOptionKeepsFirst(catalog: Catalog, str: string, section: Section, name: string)
    requires Run(catalog, SplitLines(str)).Ok?
    requires name in catalog && catalog[name].typeName != StringArrayType
    requires Occurrences(Run(catalog, SplitLines(str)).value.fragments, section, name) != []
    ensures ParseText(catalog, str).Ok?
    ensures Lookup(ParseText(catalog, str).value, section, name)
            == Some(Occurrences(Run(catalog, SplitLines(str)).value.fragments, section, name)[0])
  {
    var fs := Run(catalog, SplitLines(str)).value.fragments;
    var vs := Occurrences(fs, section, name);
    RunFragments(catalog, SplitLines(str));
    MergeAllCollects(fs, section, name);
    OccurrencesTyped(catalog, fs, section, name);
    assert vs[0] in vs;
    CombineFirstWins(vs);
  }

  /** A list option collects one element per line that assigns it, in line order. */
  lemma ListOptionCollectsAll(catalog: Catalog, str: string, section: Section, name: string)
    requires Run(catalog, SplitLines(str)).Ok?
    requires name in catalog && catalog[name].typeName == StringArrayType
    requires Occurrences(Run(catalog, SplitLines(str)).value.fragments, section, name) != []
    ensures ParseText(catalog, str).Ok?
    ensures var vs := Occurrences(Run(catalog, SplitLines(str)).value.fragments, section, name);
            var r := Lookup(ParseText(catalog, str).value, section, name);
            && r.Some? && r.value.Strs? && |r.value.ss| == |vs|
            && forall i :: 0 <= i < |vs| ==> vs[i].Strs? && |vs[i].ss| == 1 && r.value.ss[i] == vs[i].ss[0]
  {
    var fs := Run(catalog, SplitLines(str)).value.fragments;
    var vs := Occurrences(fs, section, name);
    RunFragments(catalog, SplitLines(str));
    MergeAllCollects(fs, section, name);
    OccurrencesTyped(catalog, fs, section, name);
    OccurrencesSingleton(catalog, fs, section, name);
    FlattenSingletons(vs);
    CombineAppends(vs);
  }

  lemma {:induction false} OccurrencesSingleton(catalog: Catalog, fragments: seq<Config>, section: Section, name: string)
    requires forall k :: 0 <= k < |fragments| ==> LineFragment(catalog, fragments[k])
    requires name in catalog && catalog[name].typeName == StringArrayType
    ensures forall v :: v in Occurrences(fragments, section, name) ==> v.Strs? && |v.ss| == 1
  {
    if fragments != [] {
      var init := fragments[..|fragments| - 1];
      OccurrencesSingleton(catalog, init, section, name);
      var last := fragments[|fragments| - 1];
      assert LineFragment(catalog, last);
      var tail := Lookup(last, section, name);
      assert Occurrences(fragments, section, name)
             == Occurrences(init, section, name) + (if tail.Some? then [tail.value] else []);
      if tail.Some? {
        assert HasType(tail.value, catalog[name].typeName);
      }
    }
  }

  /** The parse over a prefix one line longer: the step `Run` takes on its last line. */
  lemma RunPrefixStep(catalog: Catalog, lines: seq<string>, index: nat, st: State)
    requires index < |lines| && Run(catalog, lines[..index]) == Ok(st)
    ensures Run(catalog, lines[..index + 1])
            == match InterpretLine(catalog, st.context, lines[index])
               case Err(e) => Err(ParseError(e, index + 1, lines[index]))
               case Ok(Blank) => Ok(st)
               case Ok(Header(s)) => Ok(State(s, st.fragments))
               case Ok(Assignment(f)) => Ok(State(st.context, st.fragments + [f]))
  {
    assert lines[..index + 1][..index] == lines[..index];
  }

  /** `parseBitcoinConf(str)`: the lines in order, a section cursor that starts at `top`,
      and an accumulator that each assignment's fragment is merged into; a failure is
      re-raised with the 1-based line number and the line as read. */
  method ParseBitcoinConf(catalog: Catalog, str: string) returns (r: Result<Config, Error>)
    ensures r == ParseText(catalog, str)
    ensures r.Ok? ==> WellTyped(catalog, r.value)
    ensures r.Err? ==> r.error.ParseError? && r.error.line in SplitLines(str)
  {
    var lines := SplitLines(str);
    var bitcoinConfig: Config := map[];
    var context := Top;
    ghost var fragments: seq<Config> := [];
    var index := 0;
    assert lines[..0] == [];
    while index < |lines|
      invariant 0 <= index <= |lines|
      invariant Run(catalog, lines[..index]) == Ok(State(context, fragments))
      invariant bitcoinConfig == MergeAll(fragments)
    {
      var originalLine := lines[index];
      var effect := ReadLine(catalog, context, originalLine);
      RunPrefixStep(catalog, lines, index, State(context, fragments));
      match effect {
        case Err(e) =>
          RunFailurePersists(catalog, lines, index + 1);
          return Err(ParseError(e, index + 1, originalLine));
        case Ok(Blank) =>
        case Ok(Header(sectionName)) =>
          context := sectionName;
        case Ok(Assignment(fragment)) =>
          MergeAllSnoc(fragments, fragment);
          bitcoinConfig := MergeConfigs(bitcoinConfig, fragment);
          fragments := fragments + [fragment];
      }
      index := index + 1;
    }
    assert lines[..index] == lines;
    ParseTextWellTyped(catalog, str);
    return Ok(bitcoinConfig);
  }
}
