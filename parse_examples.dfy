/** Single lines from the texts in src/__tests__/index.test.ts, resolved over a small
    catalog that declares the options those texts use. */
module ParseExamples {
  import opened Results
  import opened Errors
  import opened Options
  import opened Values
  import opened Lines

  /** The options the test texts assign, with their declared types; `vbparams` may not
      appear in `[main]`. */
  const TestCatalog: Catalog := map[
    "rpcuser" := OptionDescriptor(StringType, false, false),
    "rpcpassword" := OptionDescriptor(StringType, false, false),
    "rpcauth" := OptionDescriptor(StringArrayType, false, false),
    "blocksonly" := OptionDescriptor(BooleanType, false, false),
    "vbparams" := OptionDescriptor(StringType, false, true)]

  /** A line must name an option before its `=`. */
  lemma EmptyNameExample()
    ensures ParseLine(TestCatalog, Top, "=foo") == Err(EmptyOptionName)
  {
  }

  /** A line with no `=` is not an assignment. */
  lemma MissingEqualsExample()
    ensures ParseLine(TestCatalog, Top, "foo bar baz") == Err(MissingEquals)
  {
    assert '=' !in "foo bar baz";
  }

  /** A header must name one of the three networks. */
  lemma BadSectionExample()
    ensures CastToNetworkName("foo") == Err(InvalidNetworkName("foo"))
  {
  }

  /** An option missing from the catalog is refused, not kept as a string. */
  lemma UnknownOptionExample()
    ensures Resolve(TestCatalog, Top, "foo", "bar") == Err(UnknownOptionName("foo"))
  {
  }

  /** Outside the top context a dotted name is looked up whole, so it is an unknown option
      rather than a misplaced network prefix. */
  lemma DotInSectionExample()
    ensures Resolve(TestCatalog, Main, "test.rpcuser", "don") == Err(UnknownOptionName("test.rpcuser"))
  {
  }

  /** Options are looked up without their section, so one barred from `[main]` is
      accepted there. */
  lemma SectionRulesNotAppliedExample()
    ensures Resolve(TestCatalog, Main, "vbparams", "foo") == Ok(Single(Main, "vbparams", Str("foo")))
  {
  }
}
