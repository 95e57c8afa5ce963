/** `createParseLine` (src/parse.ts:26-61) and the per-line work of `parseBitcoinConf`
    (src/parse.ts:69-90): what one line of a `bitcoin.conf` text means in a given section. */
module Lines {
  import opened Results
  import opened Text
  import opened Errors
  import opened Options
  import opened Values
  import opened Merge

  /** The configuration holding exactly `value` for `name` in `section`. */
  function Single(section: Section, name: string, value: Value): Config
  {
    map[section := map[name := value]]
  }

  /** Exactly one section, holding exactly one option. */
  predicate IsFragment(c: Config)
  {
    |c.Keys| == 1 && forall s :: s in c ==> |c[s].Keys| == 1
  }

  /** `c` assigns one catalog option, in one section, the value `text` casts to under the
      option's declared type. */
  ghost predicate AssignsCast(catalog: Catalog, c: Config, text: string)
  {
    exists s, name :: name in catalog && c == Single(s, name, CastToValue(catalog[name].typeName, text))
  }

  /** Every list value holds a single element. */
  ghost predicate SingletonLists(c: Config)
  {
    forall s, name :: Lookup(c, s, name).Some? && Lookup(c, s, name).value.Strs? ==>
      |Lookup(c, s, name).value.ss| == 1
  }

  /** What one parsed line may contribute to the configuration. */
  ghost predicate LineFragment(catalog: Catalog, c: Config)
  {
    IsFragment(c) && WellTyped(catalog, c) && SingletonLists(c)
  }

  /** The option-name text of an assignment: what precedes the first `=`, trimmed. */
  function NameText(line: string): string
  {
    Trim(Before(line, '='))
  }

  /** The value text of an assignment: what follows the first `=`, trimmed; it may hold
      further `=` signs. */
  function ValueText(line: string): string
  {
    Trim(After(line, '='))
  }

  lemma SingleAssignsCast(catalog: Catalog, section: Section, name: string, typeName: TypeName, text: string)
    requires name in catalog && catalog[name].typeName == typeName
    ensures AssignsCast(catalog, Single(section, name, CastToValue(typeName, text)), text)
  {
  }

  /** A line's fragment is one well-typed entry; a list in it has one element. */
  lemma AssignsCastIsLineFragment(catalog: Catalog, c: Config, text: string)
    requires AssignsCast(catalog, c, text)
    ensures LineFragment(catalog, c)
  {
    var section, name :| name in catalog && c == Single(section, name, CastToValue(catalog[name].typeName, text));
    assert c.Keys == {section};
    assert c[section].Keys == {name};
    forall s, n | Lookup(c, s, n).Some?
      ensures s == section && n == name
    {
    }
  }

  /** `createParseLine(context)(line)`. A line without `=` or with an empty name fails;
      otherwise the name and value texts around the first `=` are resolved in the context. */
  function ParseLine(catalog: Catalog, context: Section, line: string): (r: Result<Config, Error>)
    ensures '=' !in line ==> r == Err(MissingEquals)
    ensures '=' in line && NameText(line) == [] ==> r == Err(EmptyOptionName)
    ensures '=' in line && NameText(line) != [] ==> r == Resolve(catalog, context, NameText(line), ValueText(line))
  {
    var indexOfEqualsSign := IndexOf(line, '=');
    if indexOfEqualsSign == -1 then Err(MissingEquals)
    else
      var lhs := NameText(line);
      if |lhs| == 0 then Err(EmptyOptionName)
      else
        var rhs := ValueText(line);
        Resolve(catalog, context, lhs, rhs)
  }

  /** The rest of `createParseLine`: the result is one option in one section. That
      section is the current context, except that in the top context a name with a `.`
      names its network before the first `.` and its option after it. The value is the
      value text cast to the option's declared type. Options are looked up without a
      section. */
  function Resolve(catalog: Catalog, context: Section, lhs: string, rhs: string): (r: Result<Config, Error>)
    ensures r.Err? ==> !r.error.ParseError?
    ensures r.Ok? ==> AssignsCast(catalog, r.value, rhs)
    ensures r.Ok? && context != Top ==> r.value.Keys == {context}
    ensures r.Ok? && Top in r.value ==> context == Top
  {
    if context == Top then
      var indexOfDot := IndexOf(lhs, '.');
      if indexOfDot > -1 then
        var sectionName :- CastToNetworkName(Before(lhs, '.'));
        var found :- FindOption(catalog, After(lhs, '.'), None);
        SingleAssignsCast(catalog, sectionName, found.optionName, found.option.typeName, rhs);
        Ok(Single(sectionName, found.optionName, CastToValue(found.option.typeName, rhs)))
      else
        var found :- FindOption(catalog, lhs, None);
        SingleAssignsCast(catalog, context, found.optionName, found.option.typeName, rhs);
        Ok(Single(context, found.optionName, CastToValue(found.option.typeName, rhs)))
    else
      var found :- FindOption(catalog, lhs, None);
      SingleAssignsCast(catalog, context, found.optionName, found.option.typeName, rhs);
      Ok(Single(context, found.optionName, CastToValue(found.option.typeName, rhs)))
  }

  /** The split is at the first `=`: the name is the trimmed text before it and the value
      the trimmed rest, whatever the rest holds. */
  lemma SplitAtFirstEquals(catalog: Catalog, context: Section, a: string, b: string)
    requires '=' !in a && Trim(a) != []
    ensures ParseLine(catalog, context, a + "=" + b) == Resolve(catalog, context, Trim(a), Trim(b))
  {
    FirstOccurrence(a, '=', b);
  }

  /** Outside the top context, and in it for a name without a dot, the option lands in the
      current context with its value cast to the option's type; an unknown name fails. */
  lemma PlainNameInContext(catalog: Catalog, context: Section, lhs: string, rhs: string)
    requires context == Top ==> '.' !in lhs
    ensures lhs in catalog ==>
              Resolve(catalog, context, lhs, rhs)
              == Ok(Single(context, lhs, CastToValue(catalog[lhs].typeName, rhs)))
    ensures lhs !in catalog ==> Resolve(catalog, context, lhs, rhs) == Err(UnknownOptionName(lhs))
  {
  }

  /** Dot notation in the top context: `net.name` puts `name` in the network section
      `net`, not in `top`. */
  lemma DotNotationInTop(catalog: Catalog, net: Section, name: string, rhs: string)
    requires net != Top && name in catalog
    ensures Resolve(catalog, Top, SectionName(net) + "." + name, rhs)
            == Ok(Single(net, name, CastToValue(catalog[name].typeName, rhs)))
  {
    var prefix := SectionName(net);
    assert '.' !in prefix;
    FirstOccurrenceIndex(prefix, '.', name);
    NetworkNameRoundTrip(net);
  }

  /** Dot notation in the top context: behind a valid network prefix, an option missing
      from the catalog fails as unknown, named without its prefix. */
  lemma DotNotationUnknownOption(catalog: Catalog, net: Section, name: string, rhs: string)
    requires net != Top && name !in catalog
    ensures Resolve(catalog, Top, SectionName(net) + "." + name, rhs) == Err(UnknownOptionName(name))
  {
    var prefix := SectionName(net);
    assert '.' !in prefix;
    FirstOccurrenceIndex(prefix, '.', name);
    NetworkNameRoundTrip(net);
  }

  /** In the top context, the text before the first `.` of the name must be a network
      name; nothing else about the line is looked at once it is not. */
  lemma DotNotationNeedsNetwork(catalog: Catalog, prefix: string, rest: string, rhs: string)
    requires '.' !in prefix
    requires prefix != "main" && prefix != "test" && prefix != "regtest"
    ensures Resolve(catalog, Top, prefix + "." + rest, rhs) == Err(InvalidNetworkName(prefix))
  {
    FirstOccurrenceIndex(prefix, '.', rest);
  }

  /** `line.startsWith('[') && line.endsWith(']')`. */
  predicate IsHeader(line: string)
  {
    |line| > 0 && line[0] == '[' && line[|line| - 1] == ']'
  }

  /** The text a line keeps once its comment, from the first `#` on, and the surrounding
      whitespace are gone. */
  function Content(originalLine: string): string
  {
    Trim(Before(originalLine, '#'))
  }

  /** Everything from the first `#` on is a comment, whatever it holds. */
  lemma CommentIsDropped(a: string, b: string)
    requires '#' !in a
    ensures Content(a + "#" + b) == Trim(a)
  {
    FirstOccurrence(a, '#', b);
  }

  /** What one line does: nothing, switch the section, or contribute a fragment. */
  datatype LineEffect = Blank | Header(section: Section) | Assignment(fragment: Config)

  /** The body of the per-line `try` block, before the merge: a blank line does nothing, a
      header switches to the network it names and contributes nothing, and any other line
      is parsed in the current context. */
  function InterpretLine(catalog: Catalog, context: Section, originalLine: string): (r: Result<LineEffect, Error>)
    ensures r.Err? ==> !r.error.ParseError?
  {
    var line := Content(originalLine);
    if |line| == 0 then Ok(Blank)
    else if IsHeader(line) then
      var sectionName :- CastToNetworkName(line[1..|line| - 1]);
      Ok(Header(sectionName))
    else
      var fragment :- ParseLine(catalog, context, line);
      Ok(Assignment(fragment))
  }

  /** A line that parses gives the fragment of one assignment. */
  lemma ParseLineFragment(catalog: Catalog, context: Section, line: string)
    requires ParseLine(catalog, context, line).Ok?
    ensures LineFragment(catalog, ParseLine(catalog, context, line).value)
  {
    assert '=' in line && NameText(line) != [];
    var r := Resolve(catalog, context, NameText(line), ValueText(line));
    AssignsCastIsLineFragment(catalog, r.value, ValueText(line));
  }

  /** The three outcomes of a line: blank exactly when nothing is left once the comment
      and the whitespace are gone; a header only for a bracketed line, naming a network
      section, never `top`; an assignment carries what `ParseLine` makes of the line. */
  lemma InterpretLineEffects(catalog: Catalog, context: Section, originalLine: string)
    ensures InterpretLine(catalog, context, originalLine) == Ok(Blank) <==> Content(originalLine) == []
    ensures InterpretLine(catalog, context, originalLine).Ok? && InterpretLine(catalog, context, originalLine).value.Header?
            ==> IsHeader(Content(originalLine)) && InterpretLine(catalog, context, originalLine).value.section != Top
    ensures Content(originalLine) != [] && !IsHeader(Content(originalLine))
            ==> (InterpretLine(catalog, context, originalLine).Ok?
                 <==> ParseLine(catalog, context, Content(originalLine)).Ok?)
    ensures InterpretLine(catalog, context, originalLine).Ok? && InterpretLine(catalog, context, originalLine).value.Assignment?
            ==> var f := ParseLine(catalog, context, Content(originalLine));
                f.Ok? && InterpretLine(catalog, context, originalLine).value.fragment == f.value
                && LineFragment(catalog, f.value)
  {
    var line := Content(originalLine);
    if line != [] && !IsHeader(line) && ParseLine(catalog, context, line).Ok? {
      ParseLineFragment(catalog, context, line);
    }
  }

  /** The body of the per-line callback up to the merge: drop the comment, trim, skip a
      blank line, switch the section on a header, and otherwise parse the line in the
      current section. */
  method ReadLine(catalog: Catalog, context: Section, originalLine: string) returns (r: Result<LineEffect, Error>)
    ensures r == InterpretLine(catalog, context, originalLine)
  {
    var line := originalLine;
    BeforeAfterIndexOf(originalLine, '#');
    var indexOfPoundSign := IndexOf(line, '#');
    if indexOfPoundSign > -1 {
      line := line[..indexOfPoundSign];
    }
    line := Trim(line);
    if |line| == 0 {
      return Ok(Blank);
    }
    if line[0] == '[' && line[|line| - 1] == ']' {
      var sectionName := CastToNetworkName(line[1..|line| - 1]);
      if sectionName.Err? {
        return Err(sectionName.error);
      }
      return Ok(Header(sectionName.value));
    }
    var fragment := ParseLine(catalog, context, line);
    if fragment.Err? {
      return Err(fragment.error);
    }
    return Ok(Assignment(fragment.value));
  }
}
